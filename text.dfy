/** The string operations the gallery scripts rely on: `trim`, `toLowerCase`,
    `split(/\s+/)`, `split('-')`, `join`, `includes`, and the decimal form of
    numbers (`String(n)`, `Number(s)`). */
module Text {
  import opened Seqs

  /** ECMAScript WhiteSpace and LineTerminator code points: what `trim`
      removes and what the regular expression class `\s` matches. */
  predicate IsSpace(c: char) {
    || c == ' ' || c == '\t' || c == '\n' || c == '\U{B}' || c == '\U{C}' || c == '\r'
    || c == '\U{A0}' || c == '\U{1680}' || ('\U{2000}' <= c <= '\U{200A}')
    || c == '\U{2028}' || c == '\U{2029}' || c == '\U{202F}' || c == '\U{205F}'
    || c == '\U{3000}' || c == '\U{FEFF}'
  }

  predicate NoSpace(s: string) {
    forall i :: 0 <= i < |s| ==> !IsSpace(s[i])
  }

  predicate AllSpace(s: string) {
    forall i :: 0 <= i < |s| ==> IsSpace(s[i])
  }

  // ---------------------------------------------------------------------------
  // toLowerCase

  /** Lower-case mapping of Latin A-Z and of the Cyrillic capitals U+0400..U+042F
      (Ѐ..Џ to ѐ..џ, А..Я to а..я); every other character is left as it is. */
  function LowerChar(c: char): char {
    if 'A' <= c <= 'Z' then (c as int + 32) as char
    else if '\U{410}' <= c <= '\U{42F}' then (c as int + 32) as char
    else if '\U{400}' <= c <= '\U{40F}' then (c as int + 80) as char
    else c
  }

  function Lower(s: string): (r: string)
    ensures |r| == |s|
  {
    seq(|s|, i requires 0 <= i < |s| => LowerChar(s[i]))
  }

  predicate IsLower(s: string) {
    Lower(s) == s
  }

  lemma LowerAppend(a: string, b: string)
    ensures Lower(a + b) == Lower(a) + Lower(b)
  {
    assert forall i :: 0 <= i < |a + b| ==> Lower(a + b)[i] == (Lower(a) + Lower(b))[i];
  }

  lemma LowerSlice(s: string, i: nat, j: nat)
    requires i <= j <= |s|
    ensures Lower(s[i..j]) == Lower(s)[i..j]
  {
  }

  /** Lowering never turns a character into white space or white space into
      something else, and lowering twice is lowering once. */
  lemma LowerCharFacts(c: char)
    ensures IsSpace(LowerChar(c)) <==> IsSpace(c)
    ensures LowerChar(LowerChar(c)) == LowerChar(c)
  {
  }

  lemma LowerIdempotent(s: string)
    ensures IsLower(Lower(s))
  {
    forall i | 0 <= i < |s| ensures LowerChar(LowerChar(s[i])) == LowerChar(s[i]) {
      LowerCharFacts(s[i]);
    }
  }

  // ---------------------------------------------------------------------------
  // trim

  /** `s` without its leading white space. */
  function TrimStart(s: string): string {
    if s != [] && IsSpace(s[0]) then TrimStart(s[1..]) else s
  }

  /** `TrimStart(s)` is a suffix of `s` that does not start with white space,
      and only white space is cut from the start. */
  lemma {:induction false} TrimStartCut(s: string)
    ensures |TrimStart(s)| <= |s| && TrimStart(s) == s[|s| - |TrimStart(s)|..]
    ensures AllSpace(s[..|s| - |TrimStart(s)|])
    ensures TrimStart(s) == [] || !IsSpace(TrimStart(s)[0])
  {
    if s != [] && IsSpace(s[0]) {
      TrimStartCut(s[1..]);
      var n := |s| - |TrimStart(s)|;
      assert s[n..] == s[1..][n - 1..];
      assert s[..n] == [s[0]] + s[1..][..n - 1];
    }
  }

  /** `s` without its trailing white space. */
  function TrimEnd(s: string): string {
    if s != [] && IsSpace(s[|s| - 1]) then TrimEnd(s[..|s| - 1]) else s
  }

  /** `TrimEnd(s)` is a prefix of `s` that does not end with white space,
      and only white space is cut from the end. */
  lemma {:induction false} TrimEndCut(s: string)
    ensures |TrimEnd(s)| <= |s| && TrimEnd(s) == s[..|TrimEnd(s)|]
    ensures AllSpace(s[|TrimEnd(s)|..])
    ensures TrimEnd(s) == [] || !IsSpace(TrimEnd(s)[|TrimEnd(s)| - 1])
  {
    if s != [] && IsSpace(s[|s| - 1]) {
      var init := s[..|s| - 1];
      TrimEndCut(init);
      var n := |TrimEnd(s)|;
      assert s[..n] == init[..n];
      assert s[n..] == init[n..] + [s[|s| - 1]];
    }
  }

  /** String.prototype.trim. */
  function Trim(s: string): (r: string) {
    TrimEnd(TrimStart(s))
  }

  /** `trim` cuts white space only: the result is a slice with nothing but
      white space on either side, and it starts and ends with a non-space. */
  lemma TrimBounds(s: string) returns (a: nat, b: nat)
    ensures a <= b <= |s| && Trim(s) == s[a..b]
    ensures AllSpace(s[..a]) && AllSpace(s[b..])
    ensures a < b ==> !IsSpace(s[a]) && !IsSpace(s[b - 1])
  {
    var t := TrimStart(s);
    var r := TrimEnd(t);
    TrimStartCut(s);
    TrimEndCut(t);
    a := |s| - |t|;
    b := a + |r|;
    SliceOfSuffix(s, t, r);
  }

  /** A prefix `r` of a suffix `t` of `s`, where only white space precedes `t`
      and follows `r` in `t`, is a slice of `s` with only white space around
      it; when `t` starts and `r` ends with a non-space, so does the slice. */
  lemma SliceOfSuffix(s: string, t: string, r: string)
    requires |t| <= |s| && t == s[|s| - |t|..] && AllSpace(s[..|s| - |t|])
    requires |r| <= |t| && r == t[..|r|] && AllSpace(t[|r|..])
    requires t == [] || !IsSpace(t[0])
    requires r == [] || !IsSpace(r[|r| - 1])
    ensures r == s[|s| - |t|..|s| - |t| + |r|]
    ensures AllSpace(s[|s| - |t| + |r|..])
    ensures r != [] ==> !IsSpace(s[|s| - |t|]) && !IsSpace(s[|s| - |t| + |r| - 1])
  {
    var a := |s| - |t|;
    assert t[|r|..] == s[a + |r|..];
    if r != [] {
      assert s[a] == t[0] == r[0];
    }
  }

  /** What `trim` keeps: nothing exactly when the string is all white space,
      and otherwise a middle part that starts and ends with a non-space. */
  lemma TrimFacts(s: string)
    ensures Trim(s) == [] <==> AllSpace(s)
    ensures Trim(s) != [] ==> !IsSpace(Trim(s)[0]) && !IsSpace(Trim(s)[|Trim(s)| - 1])
    ensures exists a, b :: 0 <= a <= b <= |s| && Trim(s) == s[a..b]
  {
    var a, b := TrimBounds(s);
    if a == b {
      assert AllSpace(s) by {
        forall k | 0 <= k < |s| ensures IsSpace(s[k]) {
          if k < a {
            assert s[..a][k] == s[k];
          } else {
            assert s[b..][k - b] == s[k];
          }
        }
      }
    }
  }

  lemma TrimUnchanged(s: string)
    requires s == [] || (!IsSpace(s[0]) && !IsSpace(s[|s| - 1]))
    ensures Trim(s) == s
  {
  }

  // ---------------------------------------------------------------------------
  // split(/\s+/)

  /** The position of the first white space, or the length when there is none. */
  function IndexOfSpace(s: string): (i: nat)
    ensures i <= |s| && (i < |s| ==> IsSpace(s[i]))
  {
    if s == [] || IsSpace(s[0]) then 0 else 1 + IndexOfSpace(s[1..])
  }

  /** No white space comes before `IndexOfSpace(s)`. */
  lemma {:induction false} IndexOfSpaceFirst(s: string)
    ensures NoSpace(s[..IndexOfSpace(s)])
  {
    if s != [] && !IsSpace(s[0]) {
      var i := IndexOfSpace(s);
      IndexOfSpaceFirst(s[1..]);
      assert s[..i] == [s[0]] + s[1..][..i - 1];
    }
  }

  /** The length of the white-space run that starts `s`. */
  function SpaceRun(s: string): (n: nat)
    ensures n <= |s| && (n < |s| ==> !IsSpace(s[n]))
    ensures s != [] && IsSpace(s[0]) ==> n >= 1
  {
    if s != [] && IsSpace(s[0]) then 1 + SpaceRun(s[1..]) else 0
  }

  /** Everything before `SpaceRun(s)` is white space. */
  lemma {:induction false} SpaceRunAllSpace(s: string)
    ensures AllSpace(s[..SpaceRun(s)])
  {
    if s != [] && IsSpace(s[0]) {
      var n := SpaceRun(s);
      SpaceRunAllSpace(s[1..]);
      assert s[..n] == [s[0]] + s[1..][..n - 1];
    }
  }

  /** `s.split(/\s+/)`: the pieces between maximal runs of white space; a
      leading or trailing run gives an empty first or last piece, and the
      empty string gives one empty piece. */
  function SplitOnSpaces(s: string): (r: seq<string>)
    ensures |r| >= 1
    decreases |s|
  {
    var i := IndexOfSpace(s);
    if i == |s| then [s]
    else
      var j := i + SpaceRun(s[i..]);
      [s[..i]] + SplitOnSpaces(s[j..])
  }

  lemma SplitWhole(s: string)
    requires IndexOfSpace(s) == |s|
    ensures SplitOnSpaces(s) == [s]
  {
  }

  lemma SplitUnfold(s: string, i: nat, j: nat)
    requires i == IndexOfSpace(s) < |s| && j == i + SpaceRun(s[i..])
    ensures SplitOnSpaces(s) == [s[..i]] + SplitOnSpaces(s[j..])
  {
  }

  /** One step of the split: a first piece without white space, then either
      the end of the string or a run of white space and the rest. */
  lemma SplitStep(s: string) returns (i: nat, j: nat)
    ensures i <= |s| && NoSpace(s[..i])
    ensures i == |s| ==> SplitOnSpaces(s) == [s]
    ensures i < |s| ==> i < j <= |s| && AllSpace(s[i..j])
    ensures i < |s| ==> SplitOnSpaces(s) == [s[..i]] + SplitOnSpaces(s[j..])
  {
    i := IndexOfSpace(s);
    j := i;
    IndexOfSpaceFirst(s);
    if i == |s| {
      SplitWhole(s);
    } else {
      var n := SpaceRun(s[i..]);
      j := i + n;
      SplitUnfold(s, i, j);
      assert AllSpace(s[i..j]) by {
        SpaceRunAllSpace(s[i..]);
        assert s[i..j] == s[i..][..n];
      }
    }
  }

  lemma {:induction false} SplitPiecesHaveNoSpace(s: string)
    ensures forall p :: p in SplitOnSpaces(s) ==> NoSpace(p)
    decreases |s|
  {
    var i, j := SplitStep(s);
    if i == |s| {
      assert s[..i] == s;
    } else {
      SplitPiecesHaveNoSpace(s[j..]);
    }
  }

  /** A string with a non-space character splits into at least one non-empty piece. */
  lemma {:induction false} SplitHasNonEmptyPiece(s: string)
    requires !AllSpace(s)
    ensures exists p :: p in SplitOnSpaces(s) && p != []
    decreases |s|
  {
    var i, j := SplitStep(s);
    if i == |s| {
      assert s in SplitOnSpaces(s);
    } else if i > 0 {
      assert s[..i] in SplitOnSpaces(s);
    } else {
      assert !AllSpace(s[j..]) by {
        var k :| 0 <= k < |s| && !IsSpace(s[k]);
        assert k >= j by {
          assert forall m :: 0 <= m < j ==> s[i..j][m] == s[m];
        }
        assert s[j..][k - j] == s[k];
      }
      SplitHasNonEmptyPiece(s[j..]);
      var p :| p in SplitOnSpaces(s[j..]) && p != [];
      assert p in SplitOnSpaces(s);
    }
  }

  /** Every piece of the split occurs in the string. */
  lemma {:induction false} SplitPiecesAreInfixes(s: string)
    ensures forall p :: p in SplitOnSpaces(s) ==> IsInfix(p, s)
    decreases |s|
  {
    var i, j := SplitStep(s);
    if i == |s| {
      InfixAt(s, s, 0);
    } else {
      SplitPiecesAreInfixes(s[j..]);
      forall p | p in SplitOnSpaces(s) ensures IsInfix(p, s) {
        if p == s[..i] {
          PrefixIsInfix(s, i);
        } else {
          assert p in SplitOnSpaces(s[j..]);
          SuffixInfix(p, s, j);
        }
      }
    }
  }

  predicate NotSpace(c: char) {
    !IsSpace(c)
  }

  /** The characters of `s` other than white space, in order. */
  function NonSpaceChars(s: string): string {
    Filter(s, NotSpace)
  }

  lemma NonSpaceOfNoSpace(s: string)
    requires NoSpace(s)
    ensures NonSpaceChars(s) == s
  {
    forall c | c in s ensures NotSpace(c) {
      var k :| 0 <= k < |s| && s[k] == c;
    }
    FilterAll(s, NotSpace);
  }

  lemma NonSpaceOfAllSpace(s: string)
    requires AllSpace(s)
    ensures NonSpaceChars(s) == []
  {
    forall c | c in s ensures !NotSpace(c) {
      var k :| 0 <= k < |s| && s[k] == c;
    }
    FilterEmpty(s, NotSpace);
  }

  /** Non-space characters of three consecutive parts. */
  lemma NonSpaceAppend3(a: string, b: string, c: string)
    ensures NonSpaceChars(a + b + c) == NonSpaceChars(a) + NonSpaceChars(b) + NonSpaceChars(c)
  {
    FilterAppend(a + b, c, NotSpace);
    FilterAppend(a, b, NotSpace);
  }

  /** With only white space outside a slice, the slice has all the string's
      other characters. */
  lemma NonSpaceSlice(s: string, a: nat, b: nat)
    requires a <= b <= |s| && AllSpace(s[..a]) && AllSpace(s[b..])
    ensures NonSpaceChars(s[a..b]) == NonSpaceChars(s)
  {
    assert s == s[..a] + s[a..b] + s[b..];
    NonSpaceAppend3(s[..a], s[a..b], s[b..]);
    NonSpaceOfAllSpace(s[..a]);
    NonSpaceOfAllSpace(s[b..]);
  }

  /** The pieces of the split, put back together without separators, are
      the string's non-space characters: splitting loses white space only. */
  lemma {:induction false} SplitKeepsNonSpace(s: string)
    ensures Join(SplitOnSpaces(s), "") == NonSpaceChars(s)
    decreases |s|
  {
    var i, j := SplitStep(s);
    if i == |s| {
      assert s[..i] == s;
      NonSpaceOfNoSpace(s);
    } else {
      var pieces := SplitOnSpaces(s);
      assert Join(pieces, "") == s[..i] + Join(SplitOnSpaces(s[j..]), "") by {
        JoinNoSep(pieces);
        assert pieces[0] == s[..i] && pieces[1..] == SplitOnSpaces(s[j..]);
      }
      SplitKeepsNonSpace(s[j..]);
      NonSpaceStep(s, i, j);
    }
  }

  /** A space-free piece and a white-space run: only the piece is kept. */
  lemma NonSpaceStep(s: string, i: nat, j: nat)
    requires i <= j <= |s| && NoSpace(s[..i]) && AllSpace(s[i..j])
    ensures NonSpaceChars(s) == s[..i] + NonSpaceChars(s[j..])
  {
    NonSpaceOfNoSpace(s[..i]);
    NonSpaceOfAllSpace(s[i..j]);
    assert s == s[..i] + s[i..j] + s[j..];
    NonSpaceAppend3(s[..i], s[i..j], s[j..]);
  }

  // ---------------------------------------------------------------------------
  // join

  /** Array.prototype.join. */
  function Join(parts: seq<string>, sep: string): string {
    if |parts| == 0 then ""
    else if |parts| == 1 then parts[0]
    else parts[0] + sep + Join(parts[1..], sep)
  }

  /** Joining with no separator concatenates. */
  lemma JoinNoSep(parts: seq<string>)
    requires parts != []
    ensures Join(parts, "") == parts[0] + Join(parts[1..], "")
  {
    assert parts[0] + "" == parts[0];
  }

  predicate NonEmptyWords(words: seq<string>) {
    forall k :: 0 <= k < |words| ==> words[k] != [] && NoSpace(words[k])
  }

  lemma {:induction false} JoinEnds(words: seq<string>)
    requires |words| >= 1 && NonEmptyWords(words)
    ensures Join(words, " ") != []
    ensures Join(words, " ")[0] == words[0][0]
    ensures Join(words, " ")[|Join(words, " ")| - 1] == words[|words| - 1][|words[|words| - 1]| - 1]
  {
    if |words| > 1 {
      JoinEnds(words[1..]);
    }
  }

  /** Splitting a space-joined list of words on white space gives the words back. */
  lemma {:induction false} SplitJoin(words: seq<string>)
    requires |words| >= 1 && NonEmptyWords(words)
    ensures SplitOnSpaces(Join(words, " ")) == words
  {
    var w := words[0];
    var s := Join(words, " ");
    if |words| == 1 {
      assert IndexOfSpace(s) == |s|;
    } else {
      var rest := Join(words[1..], " ");
      assert s == w + " " + rest;
      JoinEnds(words[1..]);
      var i := IndexOfSpace(s);
      assert s[|w|] == ' ';
      assert i == |w| by {
        IndexOfSpaceFirst(s);
        assert forall k :: 0 <= k < |w| ==> s[k] == w[k];
      }
      assert s[i..] == [' '] + rest;
      assert SpaceRun(s[i..]) == 1 by {
        SpaceRunAllSpace(s[i..]);
      }
      SplitUnfold(s, i, i + 1);
      assert s[i + 1..] == rest;
      assert s[..i] == w;
      SplitJoin(words[1..]);
    }
  }

  // ---------------------------------------------------------------------------
  // includes

  /** String.prototype.includes. */
  predicate IsInfix(t: string, s: string) {
    exists i | 0 <= i <= |s| - |t| :: OccursAt(t, s, i)
  }

  predicate OccursAt(t: string, s: string, i: nat) {
    i + |t| <= |s| && s[i..i + |t|] == t
  }

  lemma InfixAt(t: string, s: string, i: nat)
    requires OccursAt(t, s, i)
    ensures IsInfix(t, s)
  {
  }

  lemma PrefixIsInfix(s: string, i: nat)
    requires i <= |s|
    ensures IsInfix(s[..i], s)
  {
    InfixAt(s[..i], s, 0);
  }

  /** What occurs in a suffix of `s` occurs in `s`. */
  lemma SuffixInfix(t: string, s: string, j: nat)
    requires j <= |s| && IsInfix(t, s[j..])
    ensures IsInfix(t, s)
  {
    InfixAt(s[j..], s, j);
    InfixTransitive(t, s[j..], s);
  }

  lemma InfixTransitive(t: string, u: string, s: string)
    requires IsInfix(t, u) && IsInfix(u, s)
    ensures IsInfix(t, s)
  {
    var i :| 0 <= i <= |u| - |t| && OccursAt(t, u, i);
    var j :| 0 <= j <= |s| - |u| && OccursAt(u, s, j);
    assert forall k :: 0 <= k < |t| ==> s[j + i + k] == u[i + k] == t[k];
    assert s[j + i..j + i + |t|] == t;
    InfixAt(t, s, j + i);
  }

  /** Every part of a joined list occurs in the joined string. */
  lemma {:induction false} PartInfixOfJoin(parts: seq<string>, sep: string, k: nat)
    requires k < |parts|
    ensures IsInfix(parts[k], Join(parts, sep))
  {
    var s := Join(parts, sep);
    if |parts| == 1 {
      InfixAt(parts[0], s, 0);
    } else if k == 0 {
      assert s[..|parts[0]|] == parts[0];
      InfixAt(parts[0], s, 0);
    } else {
      var rest := Join(parts[1..], sep);
      PartInfixOfJoin(parts[1..], sep, k - 1);
      assert s[|parts[0]| + |sep|..] == rest;
      InfixAt(rest, s, |parts[0]| + |sep|);
      InfixTransitive(parts[k], rest, s);
    }
  }

  /** A non-empty word without white space that occurs in a space-joined list
      lies inside one of its parts: it cannot straddle a separator. */
  lemma {:induction false} WordInfixOfJoin(t: string, parts: seq<string>)
    requires t != [] && NoSpace(t) && IsInfix(t, Join(parts, " "))
    ensures exists k :: 0 <= k < |parts| && IsInfix(t, parts[k])
  {
    var s := Join(parts, " ");
    var i :| 0 <= i <= |s| - |t| && OccursAt(t, s, i);
    if |parts| == 1 {
      assert IsInfix(t, parts[0]);
    } else {
      var p := parts[0];
      var rest := Join(parts[1..], " ");
      assert s == p + " " + rest;
      assert s[|p|] == ' ';
      assert forall k :: i <= k < i + |t| ==> s[k] == t[k - i];
      if i + |t| <= |p| {
        assert p[i..i + |t|] == t;
        InfixAt(t, p, i);
      } else if i > |p| {
        assert rest[i - |p| - 1..i - |p| - 1 + |t|] == t;
        InfixAt(t, rest, i - |p| - 1);
        WordInfixOfJoin(t, parts[1..]);
        var k :| 0 <= k < |parts[1..]| && IsInfix(t, parts[1..][k]);
        assert IsInfix(t, parts[k + 1]);
      } else {
        assert false;
      }
    }
  }

  function LowerAll(parts: seq<string>): (r: seq<string>)
    ensures |r| == |parts|
  {
    seq(|parts|, k requires 0 <= k < |parts| => Lower(parts[k]))
  }

  lemma {:induction false} LowerJoin(parts: seq<string>)
    ensures Lower(Join(parts, " ")) == Join(LowerAll(parts), " ")
  {
    if |parts| > 1 {
      LowerJoin(parts[1..]);
      assert LowerAll(parts)[1..] == LowerAll(parts[1..]);
      LowerAppend(parts[0] + " ", Join(parts[1..], " "));
      LowerAppend(parts[0], " ");
      assert Lower(" ") == " ";
    }
  }

  // ---------------------------------------------------------------------------
  // split('-')

  /** The position of the first `c`, or the length when there is none. */
  function IndexOf(s: string, c: char): (i: nat)
    ensures i <= |s| && (i < |s| ==> s[i] == c)
  {
    if s == [] || s[0] == c then 0 else 1 + IndexOf(s[1..], c)
  }

  /** No `c` comes before `IndexOf(s, c)`. */
  lemma {:induction false} IndexOfFirst(s: string, c: char)
    ensures c !in s[..IndexOf(s, c)]
  {
    if s != [] && s[0] != c {
      var i := IndexOf(s, c);
      IndexOfFirst(s[1..], c);
      assert s[..i] == [s[0]] + s[1..][..i - 1];
    }
  }

  /** `s.split(c)` for a one-character separator. */
  function SplitOn(s: string, c: char): (r: seq<string>)
    ensures |r| >= 1
    decreases |s|
  {
    var i := IndexOf(s, c);
    if i == |s| then [s] else [s[..i]] + SplitOn(s[i + 1..], c)
  }

  lemma SplitOnUnfold(s: string, c: char, i: nat)
    requires i == IndexOf(s, c) < |s|
    ensures SplitOn(s, c) == [s[..i]] + SplitOn(s[i + 1..], c)
  {
  }

  /** Splitting on a character and joining with it again gives the string back,
      and no piece contains the separator. */
  lemma {:induction false} SplitOnJoin(s: string, c: char)
    ensures Join(SplitOn(s, c), [c]) == s
    ensures forall k :: 0 <= k < |SplitOn(s, c)| ==> c !in SplitOn(s, c)[k]
    decreases |s|
  {
    var i := IndexOf(s, c);
    IndexOfFirst(s, c);
    if i < |s| {
      var rest := SplitOn(s[i + 1..], c);
      SplitOnJoin(s[i + 1..], c);
      SplitOnUnfold(s, c, i);
      assert Join(SplitOn(s, c), [c]) == s[..i] + [c] + Join(rest, [c]);
      assert s == s[..i] + [c] + s[i + 1..];
    }
  }

  // ---------------------------------------------------------------------------
  // Decimal numbers

  predicate IsDigit(c: char) {
    '0' <= c <= '9'
  }

  predicate AllDigits(s: string) {
    forall i :: 0 <= i < |s| ==> IsDigit(s[i])
  }

  function DigitChar(d: nat): char
    requires d < 10
  {
    ('0' as int + d) as char
  }

  /** The value of a string of decimal digits (`Number(s)` for such a string). */
  function DecimalValue(s: string): nat
    requires AllDigits(s)
  {
    if s == [] then 0
    else 10 * DecimalValue(s[..|s| - 1]) + (s[|s| - 1] as int - '0' as int)
  }

  /** `String(n)` for a natural number. */
  function NatToString(n: nat): (r: string)
    ensures r != [] && AllDigits(r)
  {
    if n < 10 then [DigitChar(n)] else NatToString(n / 10) + [DigitChar(n % 10)]
  }

  /** Reading the decimal form of a number gives the number back. */
  lemma {:induction false} DecimalRoundTrip(n: nat)
    ensures DecimalValue(NatToString(n)) == n
  {
    if n >= 10 {
      DecimalRoundTrip(n / 10);
      var s := NatToString(n);
      assert s[..|s| - 1] == NatToString(n / 10);
    }
  }
}
