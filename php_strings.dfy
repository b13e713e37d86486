/** The PHP and Laravel string helpers that Criterion relies on: trim with an
    explicit character list, explode/implode on a one-character separator,
    ASCII lower-casing (how PHP compares method names) and Laravel's
    studly_case. Strings are sequences of characters; every helper here only
    looks at ASCII characters, so it behaves the same on PHP's byte strings. */
module PhpStrings {

  // ---------------------------------------------------------------------------
  // trim($value, " \t\n\r\0\x0B")
  // ---------------------------------------------------------------------------

  /** The character list Criterion::prepareValue passes to trim. */
  predicate IsTrimChar(c: char) {
    c == ' ' || c == '\t' || c == '\n' || c == '\r' || c == '\0' || c == '\U{B}'
  }

  predicate AllTrimChars(s: string) {
    forall k :: 0 <= k < |s| ==> IsTrimChar(s[k])
  }

  /** Strips trim characters from the front. */
  function TrimLeft(s: string): string
    decreases |s|
  {
    if |s| > 0 && IsTrimChar(s[0]) then TrimLeft(s[1..]) else s
  }

  /** Strips trim characters from the back. */
  function TrimRight(s: string): string
    decreases |s|
  {
    if |s| > 0 && IsTrimChar(s[|s| - 1]) then TrimRight(s[..|s| - 1]) else s
  }

  /** PHP's trim with the character list above. */
  function Trim(s: string): string {
    TrimRight(TrimLeft(s))
  }

  /** What TrimLeft removes is a prefix made only of trim characters, and
      what it keeps does not start with one. */
  lemma {:induction false} TrimLeftSpec(s: string)
    ensures var r := TrimLeft(s);
      |r| <= |s| && r == s[|s| - |r|..] && AllTrimChars(s[..|s| - |r|]) &&
      (r == [] || !IsTrimChar(r[0]))
    decreases |s|
  {
    if |s| > 0 && IsTrimChar(s[0]) {
      TrimLeftSpec(s[1..]);
      var r := TrimLeft(s[1..]);
      assert s[..|s| - |r|] == [s[0]] + s[1..][..|s| - 1 - |r|];
    }
  }

  /** What TrimRight removes is a suffix made only of trim characters, and
      what it keeps does not end with one. */
  lemma {:induction false} TrimRightSpec(s: string)
    ensures var r := TrimRight(s);
      |r| <= |s| && r == s[..|r|] && AllTrimChars(s[|r|..]) &&
      (r == [] || !IsTrimChar(r[|r| - 1]))
    decreases |s|
  {
    if |s| > 0 && IsTrimChar(s[|s| - 1]) {
      TrimRightSpec(s[..|s| - 1]);
      var r := TrimRight(s[..|s| - 1]);
      assert s[|r|..] == s[..|s| - 1][|r|..] + [s[|s| - 1]];
    }
  }

  /** The result of Trim neither starts nor ends with a trim character. */
  lemma TrimmedEnds(s: string)
    ensures var r := Trim(s); r == [] || (!IsTrimChar(r[0]) && !IsTrimChar(r[|r| - 1]))
  {
    var l := TrimLeft(s);
    var r := TrimRight(l);
    TrimLeftSpec(s);
    TrimRightSpec(l);
    if r != [] {
      assert r[0] == l[0];
    }
  }

  lemma SuffixPrefix(s: string, l: string, r: string)
    requires |r| <= |l| <= |s| && l == s[|s| - |l|..] && r == l[..|r|]
    requires AllTrimChars(l[|r|..])
    ensures var i := |s| - |l|; s[i..i + |r|] == r && AllTrimChars(s[i + |r|..])
  {
    var i := |s| - |l|;
    assert l[|r|..] == s[i + |r|..];
  }

  /** Trim returns the infix of s that starts at the first and ends at the
      last non-trim character: everything cut off on either side is a trim
      character. With TrimmedEnds this says it removes exactly the padding. */
  lemma TrimRemovesPadding(s: string)
    ensures |Trim(s)| <= |TrimLeft(s)| <= |s|
    ensures s[|s| - |TrimLeft(s)|..|s| - |TrimLeft(s)| + |Trim(s)|] == Trim(s)
    ensures AllTrimChars(s[..|s| - |TrimLeft(s)|])
    ensures AllTrimChars(s[|s| - |TrimLeft(s)| + |Trim(s)|..])
  {
    TrimLeftSpec(s);
    TrimRightSpec(TrimLeft(s));
    SuffixPrefix(s, TrimLeft(s), TrimRight(TrimLeft(s)));
  }

  /** Trim leaves a string unchanged exactly when neither end is a trim character. */
  lemma TrimFixpoint(s: string)
    ensures Trim(s) == s <==> (s == [] || (!IsTrimChar(s[0]) && !IsTrimChar(s[|s| - 1])))
  {
    TrimmedEnds(s);
  }

  /** Trimming twice is trimming once. */
  lemma TrimIdempotent(s: string)
    ensures Trim(Trim(s)) == Trim(s)
  {
    TrimmedEnds(s);
    TrimFixpoint(Trim(s));
  }

  lemma {:induction false} TrimRightSkipsPadding(s: string, q: string)
    requires AllTrimChars(q)
    ensures TrimRight(s + q) == TrimRight(s)
    decreases |q|
  {
    if q != [] {
      var q' := q[..|q| - 1];
      var sq := s + q;
      assert sq[|sq| - 1] == q[|q| - 1] && IsTrimChar(q[|q| - 1]);
      assert sq[..|sq| - 1] == s + q';
      assert TrimRight(sq) == TrimRight(s + q');
      assert AllTrimChars(q') by {
        forall k | 0 <= k < |q'| ensures IsTrimChar(q'[k]) {
          assert q'[k] == q[k];
        }
      }
      TrimRightSkipsPadding(s, q');
    } else {
      assert s + q == s;
    }
  }

  /** Trailing trim characters never survive the left trim of a string that
      has a non-trim character: they stay as a suffix. */
  lemma {:induction false} TrimLeftKeepsSuffix(s: string, q: string)
    ensures TrimLeft(s + q) == if AllTrimChars(s) then TrimLeft(q) else TrimLeft(s) + q
    decreases |s|
  {
    if s == [] {
      assert s + q == q;
    } else if IsTrimChar(s[0]) {
      assert (s + q)[1..] == s[1..] + q;
      TrimLeftKeepsSuffix(s[1..], q);
      assert AllTrimChars(s) == AllTrimChars(s[1..]);
    }
  }

  lemma {:induction false} TrimLeftOfPadding(s: string)
    requires AllTrimChars(s)
    ensures TrimLeft(s) == []
    decreases |s|
  {
    if s != [] {
      assert IsTrimChar(s[0]);
      assert AllTrimChars(s[1..]) by {
        forall k | 0 <= k < |s[1..]| ensures IsTrimChar(s[1..][k]) {
          assert s[1..][k] == s[k + 1];
        }
      }
      TrimLeftOfPadding(s[1..]);
    }
  }

  /** Any padding made of trim characters on either side is removed by Trim:
      trim(pad + s + pad') == trim(s). */
  lemma TrimIgnoresPadding(p: string, s: string, q: string)
    requires AllTrimChars(p) && AllTrimChars(q)
    ensures Trim(p + s + q) == Trim(s)
  {
    assert p + s + q == p + (s + q);
    TrimLeftKeepsSuffix(p, s + q);
    TrimLeftKeepsSuffix(s, q);
    if AllTrimChars(s) {
      TrimLeftOfPadding(s);
      TrimLeftOfPadding(q);
    } else {
      TrimRightSkipsPadding(TrimLeft(s), q);
    }
  }

  // ---------------------------------------------------------------------------
  // strpos / explode / implode on a single-character separator
  // ---------------------------------------------------------------------------

  /** Position of the first occurrence of c in s, or |s| when there is none. */
  function FirstIndex(s: string, c: char): (i: nat)
    ensures i <= |s|
    ensures c !in s[..i]
    ensures i < |s| ==> s[i] == c
    decreases |s|
  {
    if s == [] then 0
    else if s[0] == c then 0
    else
      var j := FirstIndex(s[1..], c);
      assert s[..j + 1] == [s[0]] + s[1..][..j];
      1 + j
  }

  lemma {:induction false} FirstIndexAfterPrefix(p: string, c: char, rest: string)
    requires c !in p
    ensures FirstIndex(p + [c] + rest, c) == |p|
    decreases |p|
  {
    if p != [] {
      assert (p + [c] + rest)[1..] == p[1..] + [c] + rest;
      FirstIndexAfterPrefix(p[1..], c, rest);
    }
  }

  /** explode($sep, $s): the pieces between separators, left to right; there is
      always at least one piece, and more than one exactly when sep occurs. */
  function Explode(sep: char, s: string): (parts: seq<string>)
    ensures |parts| >= 1
    ensures sep in s <==> |parts| >= 2
    ensures forall k :: 0 <= k < |parts| ==> sep !in parts[k]
    decreases |s|
  {
    var i := FirstIndex(s, sep);
    if i == |s| then
      assert s[..i] == s;
      [s]
    else
      [s[..i]] + Explode(sep, s[i + 1..])
  }

  /** implode($sep, $parts): the inverse of Explode. */
  function Implode(sep: char, parts: seq<string>): string
    decreases |parts|
  {
    if |parts| == 0 then ""
    else if |parts| == 1 then parts[0]
    else parts[0] + [sep] + Implode(sep, parts[1..])
  }

  /** Joining the pieces of a split gives the string back. */
  lemma {:induction false} ImplodeExplode(sep: char, s: string)
    ensures Implode(sep, Explode(sep, s)) == s
    decreases |s|
  {
    var i := FirstIndex(s, sep);
    if i < |s| {
      var rest := Explode(sep, s[i + 1..]);
      assert Explode(sep, s) == [s[..i]] + rest;
      assert ([s[..i]] + rest)[1..] == rest;
      assert Implode(sep, [s[..i]] + rest) == s[..i] + [sep] + Implode(sep, rest);
      ImplodeExplode(sep, s[i + 1..]);
      assert s == s[..i] + [sep] + s[i + 1..];
    } else {
      assert Explode(sep, s) == [s];
    }
  }

  /** Splitting a join of separator-free pieces gives the pieces back. */
  lemma {:induction false} ExplodeImplode(sep: char, parts: seq<string>)
    requires |parts| >= 1
    requires forall k :: 0 <= k < |parts| ==> sep !in parts[k]
    ensures Explode(sep, Implode(sep, parts)) == parts
    decreases |parts|
  {
    if |parts| == 1 {
      assert sep !in parts[0];
    } else {
      var head, rest := parts[0], parts[1..];
      var tail := Implode(sep, rest);
      var s := head + [sep] + tail;
      assert Implode(sep, parts) == s;
      FirstIndexAfterPrefix(head, sep, tail);
      assert s[..|head|] == head && s[|head| + 1..] == tail;
      assert Explode(sep, s) == [head] + Explode(sep, tail);
      assert forall k :: 0 <= k < |rest| ==> rest[k] == parts[k + 1];
      ExplodeImplode(sep, rest);
      assert parts == [head] + rest;
    }
  }

  // ---------------------------------------------------------------------------
  // Case handling: PHP method-name comparison and Laravel's studly_case
  // ---------------------------------------------------------------------------

  function LowerChar(c: char): char {
    if 'A' <= c <= 'Z' then (c as int - 'A' as int + 'a' as int) as char else c
  }

  function UpperChar(c: char): char {
    if 'a' <= c <= 'z' then (c as int - 'a' as int + 'A' as int) as char else c
  }

  /** ASCII lower-casing, as PHP applies to method names before comparing them. */
  function LowerAscii(s: string): string {
    seq(|s|, i requires 0 <= i < |s| => LowerChar(s[i]))
  }

  /** The delimiters ucwords uses by default. */
  predicate IsWordDelimiter(c: char) {
    c == ' ' || c == '\t' || c == '\r' || c == '\n' || c == '\U{C}' || c == '\U{B}'
  }

  /** ucwords: upper-case the first character and every character after a delimiter. */
  function UcWords(s: string): string {
    seq(|s|, i requires 0 <= i < |s| =>
      if i == 0 || IsWordDelimiter(s[i - 1]) then UpperChar(s[i]) else s[i])
  }

  /** str_replace(['-', '_'], ' ', $s). */
  function DashesToSpaces(s: string): string {
    seq(|s|, i requires 0 <= i < |s| => if s[i] == '-' || s[i] == '_' then ' ' else s[i])
  }

  /** str_replace(' ', '', $s). */
  function RemoveSpaces(s: string): (r: string)
    ensures ' ' !in r
    ensures |r| <= |s|
    decreases |s|
  {
    if s == [] then ""
    else (if s[0] == ' ' then "" else [s[0]]) + RemoveSpaces(s[1..])
  }

  /** Laravel's studly_case: "user_name" becomes "UserName". */
  function StudlyCase(s: string): (r: string)
    ensures ' ' !in r
    ensures |r| <= |s|
  {
    RemoveSpaces(UcWords(DashesToSpaces(s)))
  }

  /** A word as studly_case sees it: no separator and no ucwords delimiter. */
  predicate PlainWord(w: string) {
    forall k :: 0 <= k < |w| ==> !IsWordDelimiter(w[k]) && w[k] != '-' && w[k] != '_'
  }

  /** ucfirst on ASCII. */
  function Capitalize(w: string): string {
    if w == [] then [] else [UpperChar(w[0])] + w[1..]
  }

  /** The words capitalised and run together. */
  function CapitalizedWords(ws: seq<string>): string
    decreases |ws|
  {
    if ws == [] then "" else Capitalize(ws[0]) + CapitalizedWords(ws[1..])
  }

  lemma {:induction false} RemoveSpacesConcat(a: string, b: string)
    ensures RemoveSpaces(a + b) == RemoveSpaces(a) + RemoveSpaces(b)
    decreases |a|
  {
    if a != [] {
      assert (a + b)[1..] == a[1..] + b;
      RemoveSpacesConcat(a[1..], b);
    } else {
      assert a + b == b;
    }
  }

  lemma {:induction false} RemoveSpacesOfSpaceless(s: string)
    requires ' ' !in s
    ensures RemoveSpaces(s) == s
    decreases |s|
  {
    if s != [] {
      assert ' ' !in s[1..];
      RemoveSpacesOfSpaceless(s[1..]);
      assert [s[0]] + s[1..] == s;
    }
  }

  /** ucwords leaves a character alone that does not follow a delimiter. */
  lemma UcWordsAt(s: string, k: nat)
    requires 0 < k < |s| && !IsWordDelimiter(s[k - 1])
    ensures UcWords(s)[k] == s[k]
  {
  }

  lemma DashesToSpacesOfPlainWord(w: string)
    requires PlainWord(w)
    ensures DashesToSpaces(w) == w
  {
  }

  /** A plain word passes through the first two steps as ucfirst. */
  lemma StudlyCaseOfPlainWord(w: string)
    requires PlainWord(w)
    ensures UcWords(DashesToSpaces(w)) == Capitalize(w)
    ensures ' ' !in Capitalize(w)
  {
    DashesToSpacesOfPlainWord(w);
    forall k | 0 <= k < |w|
      ensures UcWords(w)[k] == Capitalize(w)[k]
    {
      if k > 0 {
        assert !IsWordDelimiter(w[k - 1]);
        UcWordsAt(w, k);
      }
    }
  }

  /** ucwords treats the two sides of a space independently. */
  lemma UcWordsAroundSpace(a: string, b: string)
    ensures UcWords(a + [' '] + b) == UcWords(a) + [' '] + UcWords(b)
  {
    var s := a + [' '] + b;
    forall i | 0 <= i < |s|
      ensures UcWords(s)[i] == (UcWords(a) + [' '] + UcWords(b))[i]
    {
      if i > |a| + 1 {
        assert s[i - 1] == b[i - |a| - 2];
      }
    }
  }

  lemma DashesAroundSeparator(w: string, sep: char, t: string)
    requires PlainWord(w) && (sep == '-' || sep == '_')
    ensures DashesToSpaces(w + [sep] + t) == w + [' '] + DashesToSpaces(t)
  {
  }

  /** A separator between two pieces becomes a space that capitalises the
      second piece and then disappears. */
  lemma StudlyCaseAtSeparator(w: string, sep: char, t: string)
    requires PlainWord(w) && (sep == '-' || sep == '_')
    ensures StudlyCase(w + [sep] + t) == Capitalize(w) + StudlyCase(t)
  {
    var d := DashesToSpaces(t);
    DashesAroundSeparator(w, sep, t);
    StudlyCaseOfPlainWord(w);
    UcWordsAroundSpace(w, d);
    var c := Capitalize(w);
    assert UcWords(DashesToSpaces(w + [sep] + t)) == c + [' '] + UcWords(d);
    RemoveSpacesConcat(c + [' '], UcWords(d));
    RemoveSpacesConcat(c, [' ']);
    RemoveSpacesOfSpaceless(c);
    assert RemoveSpaces([' ']) == "";
    assert RemoveSpaces(c + [' ']) == c;
  }

  /** studly_case of words joined by '-' or '_' is the words capitalised and
      run together: "user_name" becomes "UserName". */
  lemma {:induction false} StudlyCaseOfWords(sep: char, ws: seq<string>)
    requires sep == '-' || sep == '_'
    requires forall k :: 0 <= k < |ws| ==> PlainWord(ws[k])
    ensures StudlyCase(Implode(sep, ws)) == CapitalizedWords(ws)
    decreases |ws|
  {
    if |ws| == 0 {
      assert StudlyCase("") == "";
    } else if |ws| == 1 {
      StudlyCaseOfPlainWord(ws[0]);
      RemoveSpacesOfSpaceless(Capitalize(ws[0]));
      assert CapitalizedWords(ws) == Capitalize(ws[0]) + CapitalizedWords([]);
    } else {
      StudlyCaseAtSeparator(ws[0], sep, Implode(sep, ws[1..]));
      StudlyCaseOfWords(sep, ws[1..]);
    }
  }
}
