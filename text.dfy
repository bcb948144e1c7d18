/** The string operations the ingestion code takes from Python's `str`:
    `strip`, `lower`, the `in` operator, `startswith`, `join` and `split`,
    each with the semantics Python gives it. */
module Text {

  /** Python's `str.isspace()` for a single character. */
  predicate IsSpace(c: char) {
    ('\t' <= c <= '\r') || ('\U{1c}' <= c <= ' ') || c == '\U{85}' || c == '\U{a0}'
    || c == '\U{1680}' || ('\U{2000}' <= c <= '\U{200a}') || c == '\U{2028}'
    || c == '\U{2029}' || c == '\U{202f}' || c == '\U{205f}' || c == '\U{3000}'
  }

  predicate AllSpace(s: string) {
    forall i :: 0 <= i < |s| ==> IsSpace(s[i])
  }

  /** `s.lstrip()`: `s` without its leading whitespace. */
  function LStrip(s: string): string {
    if s != [] && IsSpace(s[0]) then LStrip(s[1..]) else s
  }

  /** `s.rstrip()`: `s` without its trailing whitespace. */
  function RStrip(s: string): string {
    if s != [] && IsSpace(s[|s| - 1]) then RStrip(s[..|s| - 1]) else s
  }

  /** `s.strip()`: `s` with leading and trailing whitespace removed. */
  function Strip(s: string): string {
    RStrip(LStrip(s))
  }

  /** `lstrip` removes exactly the longest all-whitespace prefix. */
  lemma {:induction false} LStripRemovesLeadingSpace(s: string)
    ensures |LStrip(s)| <= |s| && LStrip(s) == s[|s| - |LStrip(s)|..]
    ensures AllSpace(s[..|s| - |LStrip(s)|])
    ensures LStrip(s) == [] || !IsSpace(LStrip(s)[0])
  {
    if s != [] && IsSpace(s[0]) {
      var r := LStrip(s[1..]);
      LStripRemovesLeadingSpace(s[1..]);
      assert s[..|s| - |r|] == [s[0]] + s[1..][..|s| - 1 - |r|];
    }
  }

  /** `rstrip` removes exactly the longest all-whitespace suffix. */
  lemma {:induction false} RStripRemovesTrailingSpace(s: string)
    ensures |RStrip(s)| <= |s| && RStrip(s) == s[..|RStrip(s)|]
    ensures AllSpace(s[|RStrip(s)|..])
    ensures RStrip(s) == [] || !IsSpace(RStrip(s)[|RStrip(s)| - 1])
  {
    if s != [] && IsSpace(s[|s| - 1]) {
      var r := RStrip(s[..|s| - 1]);
      RStripRemovesTrailingSpace(s[..|s| - 1]);
      assert s[|r|..] == s[..|s| - 1][|r|..] + [s[|s| - 1]];
    }
  }

  /** `strip` keeps a contiguous slice of `s`, with only whitespace cut on
      either side, that neither starts nor ends with whitespace. */
  lemma StripTrimsWhitespace(s: string)
    ensures var r := Strip(s);
      exists i :: 0 <= i <= |s| - |r| && r == s[i..i + |r|]
        && AllSpace(s[..i]) && AllSpace(s[i + |r|..])
        && (r == [] || (!IsSpace(r[0]) && !IsSpace(r[|r| - 1])))
  {
    var i := StripSpan(s);
  }

  /** `lstrip` stops at the first character that is not whitespace. */
  lemma {:induction false} LStripAt(s: string, i: nat)
    requires i <= |s| && AllSpace(s[..i]) && (i < |s| ==> !IsSpace(s[i]))
    ensures LStrip(s) == s[i..]
    decreases i
  {
    if i > 0 {
      assert s[..i][0] == s[0];
      assert s[1..][..i - 1] == s[..i][1..];
      LStripAt(s[1..], i - 1);
      assert s[1..][i - 1..] == s[i..];
    }
  }

  /** `rstrip` stops at the last character that is not whitespace. */
  lemma {:induction false} RStripAt(s: string, k: nat)
    requires k <= |s| && AllSpace(s[k..]) && (k > 0 ==> !IsSpace(s[k - 1]))
    ensures RStrip(s) == s[..k]
    decreases |s| - k
  {
    if k < |s| {
      var front := s[..|s| - 1];
      assert s[k..][|s| - 1 - k] == s[|s| - 1];
      assert front[k..] == s[k..][..|s| - 1 - k];
      RStripAt(front, k);
      assert front[..k] == s[..k];
    } else {
      assert s[..k] == s;
    }
  }

  /** `strip` gives back exactly the slice that whitespace surrounds: the
      converse of `StripTrimsWhitespace`. */
  lemma StripAt(s: string, i: nat, r: string)
    requires i + |r| <= |s| && r == s[i..i + |r|] && r != []
    requires AllSpace(s[..i]) && AllSpace(s[i + |r|..]) && !IsSpace(r[0]) && !IsSpace(r[|r| - 1])
    ensures Strip(s) == r
  {
    LStripAt(s, i);
    var l := s[i..];
    assert l[|r|..] == s[i + |r|..];
    RStripAt(l, |r|);
    assert l[..|r|] == r;
  }

  /** Where `strip` cuts `s`: its result starts at position `j`. */
  lemma StripSpan(s: string) returns (j: nat)
    ensures j + |Strip(s)| <= |s| && Strip(s) == s[j..j + |Strip(s)|]
    ensures AllSpace(s[..j]) && AllSpace(s[j + |Strip(s)|..]) && NoOuterSpace(Strip(s))
  {
    var l := LStrip(s);
    LStripRemovesLeadingSpace(s);
    RStripRemovesTrailingSpace(l);
    var r := RStrip(l);
    j := |s| - |l|;
    assert r == s[j..j + |r|];
    assert s[j + |r|..] == l[|r|..];
    if r != [] {
      assert r[0] == l[0];
    }
  }

  /** A string that starts with a non-space character and has a non-blank
      part after position `n` strips to a prefix reaching past `n`, and the
      part of that prefix after `n` strips like the part of `s` after `n`. */
  lemma StripThenSuffix(s: string, n: nat) returns (e: nat)
    requires n <= |s| && s != [] && !IsSpace(s[0]) && Strip(s[n..]) != ""
    ensures n < e <= |s| && Strip(s) == s[..e] && Strip(s[..e][n..]) == Strip(s[n..])
  {
    var rest := s[n..];
    var t := Strip(rest);
    var j := StripSpan(rest);
    e := n + j + |t|;
    var l := s[..e];
    assert l == s[0..0 + |l|] && s[..0] == [];
    assert s[0 + |l|..] == rest[j + |t|..];
    assert l[|l| - 1] == t[|t| - 1];
    StripAt(s, 0, l);
    assert l[n..] == rest[..j + |t|];
    assert l[n..][..j] == rest[..j];
    assert l[n..][j..j + |t|] == t;
    assert l[n..][j + |t|..] == [];
    StripAt(l[n..], j, t);
  }

  /** ASCII case mapping of `str.lower()`. */
  function LowerChar(c: char): char {
    if 'A' <= c <= 'Z' then (c as int - 'A' as int + 'a' as int) as char else c
  }

  function Lower(s: string): (r: string)
    ensures |r| == |s|
    ensures forall i :: 0 <= i < |s| ==> r[i] == LowerChar(s[i])
  {
    seq(|s|, i requires 0 <= i < |s| => LowerChar(s[i]))
  }

  /** `s.startswith(p)`. */
  predicate StartsWith(s: string, p: string) {
    |p| <= |s| && s[..|p|] == p
  }

  /** `sub in s`. */
  predicate Contains(s: string, sub: string)
    decreases |s|
  {
    StartsWith(s, sub) || (s != [] && Contains(s[1..], sub))
  }

  /** `any(w in s for w in words)`. */
  predicate ContainsAny(s: string, words: seq<string>) {
    exists k :: 0 <= k < |words| && Contains(s, words[k])
  }

  /** `sep.join(parts)`. */
  function Join(parts: seq<string>, sep: string): string {
    if |parts| == 0 then ""
    else if |parts| == 1 then parts[0]
    else parts[0] + sep + Join(parts[1..], sep)
  }

  /** `s.split(sep)` for a non-empty separator: occurrences of `sep` are
      found left to right without overlap, and the pieces between them are
      returned, empty pieces included. */
  function Split(s: string, sep: string): (r: seq<string>)
    requires sep != []
    ensures |r| >= 1
    decreases |s|
  {
    if StartsWith(s, sep) then [""] + Split(s[|sep|..], sep)
    else if s == [] then [""]
    else
      var t := Split(s[1..], sep);
      [[s[0]] + t[0]] + t[1..]
  }

  function Last<T>(s: seq<T>): T
    requires s != []
  {
    s[|s| - 1]
  }

  /** Joining the pieces of a split with the same separator gives back the
      original string. */
  lemma {:induction false} JoinSplit(s: string, sep: string)
    requires sep != []
    ensures Join(Split(s, sep), sep) == s
    decreases |s|
  {
    if StartsWith(s, sep) {
      JoinSplitSep(s, sep);
    } else if s == [] {
    } else {
      JoinSplitCons(s, sep);
    }
  }

  lemma {:induction false} JoinSplitSep(s: string, sep: string)
    requires sep != [] && StartsWith(s, sep)
    ensures Join(Split(s, sep), sep) == s
    decreases |s|, 0
  {
    SplitSepCase(s, sep);
    JoinSplit(s[|sep|..], sep);
    JoinCons("", Split(s[|sep|..], sep), sep);
    SepRejoin(s, sep);
  }

  /** A string that starts with `sep` is `sep` followed by the rest. */
  lemma SepRejoin(s: string, sep: string)
    requires StartsWith(s, sep)
    ensures "" + sep + s[|sep|..] == s
  {
    assert s == s[..|sep|] + s[|sep|..];
  }

  lemma ConsAssoc(c: char, a: string, b: string, d: string)
    ensures [c] + a + b + d == [c] + (a + b + d)
  {
  }

  /** `sep.join` of two or more parts puts `sep` after the first. */
  lemma JoinCons(a: string, rest: seq<string>, sep: string)
    requires rest != []
    ensures Join([a] + rest, sep) == a + sep + Join(rest, sep)
  {
    assert ([a] + rest)[1..] == rest;
  }

  lemma {:induction false} JoinSplitCons(s: string, sep: string)
    requires sep != [] && !StartsWith(s, sep) && s != []
    ensures Join(Split(s, sep), sep) == s
    decreases |s|, 0
  {
    var r := Split(s, sep);
    var t := Split(s[1..], sep);
    JoinSplit(s[1..], sep);
    var p := [s[0]] + t[0];
    assert r == [p] + t[1..];
    if |t| == 1 {
      assert Join(r, sep) == p;
      assert s == [s[0]] + s[1..];
    } else {
      var j := Join(t[1..], sep);
      JoinCons(p, t[1..], sep);
      JoinCons(t[0], t[1..], sep);
      assert t == [t[0]] + t[1..];
      assert Join(t, sep) == t[0] + sep + j;
      assert Join(r, sep) == p + sep + j;
      ConsAssoc(s[0], t[0], sep, j);
      assert s == [s[0]] + s[1..];
    }
  }

  /** `Split` on input that does not start with the separator: the first
      character joins the first piece of the rest. */
  lemma SplitConsCase(s: string, sep: string)
    requires sep != [] && !StartsWith(s, sep) && s != []
    ensures Split(s, sep) == [[s[0]] + Split(s[1..], sep)[0]] + Split(s[1..], sep)[1..]
  {
  }

  lemma StartsWithCons(c: char, rest: string, p: string)
    requires StartsWith(rest, p)
    ensures StartsWith([c] + rest, [c] + p)
  {
    assert ([c] + rest)[..|p| + 1] == [c] + rest[..|p|];
  }

  /** The first piece of a split is a prefix of the input, followed by the
      separator when there is more than one piece. */
  lemma {:induction false} SplitHead(s: string, sep: string)
    requires sep != []
    ensures StartsWith(s, Split(s, sep)[0])
    ensures |Split(s, sep)| >= 2 ==> StartsWith(s, Split(s, sep)[0] + sep)
    decreases |s|
  {
    if StartsWith(s, sep) {
      assert Split(s, sep)[0] == "";
      assert s[..0] == "";
      assert "" + sep == sep;
    } else if s == [] {
      assert Split(s, sep) == [""];
    } else {
      var rest := s[1..];
      SplitHead(rest, sep);
      var t := Split(rest, sep);
      SplitConsCase(s, sep);
      assert [s[0]] + rest == s;
      StartsWithCons(s[0], rest, t[0]);
      if |t| >= 2 {
        StartsWithCons(s[0], rest, t[0] + sep);
        assert [s[0]] + (t[0] + sep) == [s[0]] + t[0] + sep;
      }
    }
  }

  lemma ContainsPrefix(s: string, p: string, sub: string)
    requires StartsWith(s, p) && StartsWith(p, sub)
    ensures StartsWith(s, sub)
  {
    assert s[..|sub|] == p[..|sub|];
  }

  /** No piece of a split contains the separator. */
  lemma {:induction false} SplitPiecesFree(s: string, sep: string)
    requires sep != []
    ensures forall k :: 0 <= k < |Split(s, sep)| ==> !Contains(Split(s, sep)[k], sep)
    decreases |s|
  {
    var r := Split(s, sep);
    if StartsWith(s, sep) {
      SplitPiecesFree(s[|sep|..], sep);
      assert !Contains(r[0], sep);
      forall k | 1 <= k < |r| ensures !Contains(r[k], sep) {
        assert r[k] == Split(s[|sep|..], sep)[k - 1];
      }
    } else if s == [] {
    } else {
      var t := Split(s[1..], sep);
      SplitPiecesFree(s[1..], sep);
      SplitHead(s[1..], sep);
      var p := [s[0]] + t[0];
      assert StartsWith(s, p) by {
        assert s[..|p|] == [s[0]] + s[1..][..|t[0]|];
      }
      if StartsWith(p, sep) {
        ContainsPrefix(s, p, sep);
        assert false;
      }
      assert p[1..] == t[0];
      assert !Contains(p, sep);
      forall k | 1 <= k < |r| ensures !Contains(r[k], sep) {
        assert r[k] == t[k];
      }
    }
  }

  /** For a separator made of one character twice ("\n\n"), no piece but the
      last ends with that character: a trailing one would have started a
      separator one position earlier. */
  lemma {:induction false} SplitPiecesNoTrailing(s: string, sep: string)
    requires |sep| == 2 && sep[0] == sep[1]
    ensures forall k :: 0 <= k < |Split(s, sep)| - 1 ==>
      Split(s, sep)[k] == [] || Last(Split(s, sep)[k]) != sep[0]
    decreases |s|
  {
    var r := Split(s, sep);
    if StartsWith(s, sep) {
      SplitPiecesNoTrailing(s[|sep|..], sep);
      forall k | 1 <= k < |r| - 1 ensures r[k] == [] || Last(r[k]) != sep[0] {
        assert r[k] == Split(s[|sep|..], sep)[k - 1];
      }
    } else if s == [] {
    } else {
      var t := Split(s[1..], sep);
      SplitPiecesNoTrailing(s[1..], sep);
      if |t| >= 2 {
        SplitHead(s[1..], sep);
        if t[0] == [] {
          assert StartsWith(s[1..], sep);
        } else {
          assert Last([s[0]] + t[0]) == Last(t[0]);
        }
      }
      forall k | 1 <= k < |r| - 1 ensures r[k] == [] || Last(r[k]) != sep[0] {
        assert r[k] == t[k];
      }
    }
  }

  /** Once the split of `t` ends in an empty piece (`t` is empty or ends on
      a separator), splitting `t + u` splits `u` independently. */
  lemma {:induction false} SplitAfterBoundary(t: string, u: string, sep: string)
    requires sep != []
    requires Last(Split(t, sep)) == ""
    ensures Split(t + u, sep) == Split(t, sep)[..|Split(t, sep)| - 1] + Split(u, sep)
    decreases |t|, 1
  {
    if StartsWith(t, sep) {
      SplitAfterBoundarySep(t, u, sep);
    } else if t == [] {
      assert t + u == u;
    } else {
      SplitAfterBoundaryCons(t, u, sep);
    }
  }

  lemma SplitSepCase(s: string, sep: string)
    requires sep != [] && StartsWith(s, sep)
    ensures Split(s, sep) == [""] + Split(s[|sep|..], sep)
  {
  }

  lemma {:induction false} SplitAfterBoundarySep(t: string, u: string, sep: string)
    requires sep != [] && StartsWith(t, sep)
    requires Last(Split(t, sep)) == ""
    ensures Split(t + u, sep) == Split(t, sep)[..|Split(t, sep)| - 1] + Split(u, sep)
    decreases |t|, 0
  {
    var t' := t[|sep|..];
    SplitSepCase(t, sep);
    assert Last(Split(t', sep)) == Last(Split(t, sep));
    SplitAfterBoundary(t', u, sep);
    SepAppendStep(t, u, sep);
    SepAssemble(Split(t', sep), Split(u, sep), Split(t' + u, sep), Split(t, sep), Split(t + u, sep));
  }

  lemma SepAppendStep(t: string, u: string, sep: string)
    requires sep != [] && StartsWith(t, sep)
    ensures Split(t + u, sep) == [""] + Split(t[|sep|..] + u, sep)
  {
    assert StartsWith(t + u, sep) by {
      assert (t + u)[..|sep|] == t[..|sep|];
    }
    assert (t + u)[|sep|..] == t[|sep|..] + u;
    SplitSepCase(t + u, sep);
  }

  /** The list arithmetic of the separator step of `SplitAfterBoundary`. */
  lemma SepAssemble(a: seq<string>, U: seq<string>, B: seq<string>, T: seq<string>, R: seq<string>)
    requires |a| >= 1
    requires T == [""] + a
    requires B == a[..|a| - 1] + U
    requires R == [""] + B
    ensures R == T[..|T| - 1] + U
  {
    assert T[..|T| - 1] == [""] + a[..|a| - 1];
  }

  lemma {:induction false} SplitAfterBoundaryCons(t: string, u: string, sep: string)
    requires sep != [] && !StartsWith(t, sep) && t != []
    requires Last(Split(t, sep)) == ""
    ensures Split(t + u, sep) == Split(t, sep)[..|Split(t, sep)| - 1] + Split(u, sep)
    decreases |t|, 0
  {
    ConsSplitHasTwo(t, sep);
    SplitAfterBoundary(t[1..], u, sep);
    ConsAppendStep(t, u, sep);
    SplitConsCase(t, sep);
    ConsAssemble(t[0], Split(t[1..], sep), Split(u, sep), Split(t[1..] + u, sep), Split(t, sep), Split(t + u, sep));
  }

  /** A split of `t` that ends on a boundary and does not start with one has
      at least two pieces after the first character, and `t` is longer than
      the separator. */
  lemma ConsSplitHasTwo(t: string, sep: string)
    requires sep != [] && !StartsWith(t, sep) && t != []
    requires Last(Split(t, sep)) == ""
    ensures |Split(t[1..], sep)| >= 2 && Last(Split(t[1..], sep)) == ""
    ensures |t| > |sep|
  {
    var s := Split(t[1..], sep);
    SplitConsCase(t, sep);
    assert Last(s) == Last(Split(t, sep));
    SplitHead(t[1..], sep);
  }

  lemma ConsAppendStep(t: string, u: string, sep: string)
    requires sep != [] && !StartsWith(t, sep) && |t| > |sep|
    ensures Split(t + u, sep) == [[t[0]] + Split(t[1..] + u, sep)[0]] + Split(t[1..] + u, sep)[1..]
  {
    assert !StartsWith(t + u, sep) by {
      assert (t + u)[..|sep|] == t[..|sep|];
    }
    assert (t + u)[1..] == t[1..] + u;
    SplitConsCase(t + u, sep);
  }

  /** The list arithmetic of the non-separator step of `SplitAfterBoundary`. */
  lemma ConsAssemble(c: char, s: seq<string>, U: seq<string>, B: seq<string>, T: seq<string>, R: seq<string>)
    requires |s| >= 2
    requires T == [[c] + s[0]] + s[1..]
    requires B == s[..|s| - 1] + U
    requires R == [[c] + B[0]] + B[1..]
    ensures R == T[..|T| - 1] + U
  {
    assert B[0] == s[0] && B[1..] == s[1..|s| - 1] + U;
    assert T[..|T| - 1] == [[c] + s[0]] + s[1..|s| - 1];
    ConcatAssoc([[c] + s[0]], s[1..|s| - 1], U);
  }

  /** A clean piece followed by the separator does not start with it. */
  lemma CleanPieceNoSepStart(p: string, u: string, sep: string)
    requires |sep| == 2 && sep[0] == sep[1]
    requires p != [] && !Contains(p, sep) && Last(p) != sep[0]
    ensures !StartsWith(p + sep + u, sep)
  {
    var s := p + sep + u;
    if |p| == 1 {
      assert s[1] == sep[0];
      assert s[0] == p[0] != sep[0];
    } else {
      assert s[..2] == p[..2];
    }
  }

  /** The tail of a clean piece is clean. */
  lemma CleanPieceTail(p: string, sep: string)
    requires |sep| == 2 && p != [] && !Contains(p, sep) && Last(p) != sep[0]
    ensures !Contains(p[1..], sep) && (p[1..] == [] || Last(p[1..]) != sep[0])
  {
  }

  /** The first character and the rest of `p + v`. */
  lemma ConsParts(p: string, v: string)
    requires p != []
    ensures (p + v)[0] == p[0] && (p + v)[1..] == p[1..] + v
  {
  }

  /** Putting the first character back on the first piece. */
  lemma PieceAssemble(p: string, rest: seq<string>, tail: seq<string>, whole: seq<string>)
    requires p != [] && tail == [p[1..]] + rest
    requires whole == [[p[0]] + tail[0]] + tail[1..]
    ensures whole == [p] + rest
  {
    assert [p[0]] + p[1..] == p;
  }

  /** A piece free of the doubled separator character at its end and of the
      separator itself is split off as one whole piece. */
  lemma {:induction false} SplitCleanPiece(p: string, u: string, sep: string)
    requires |sep| == 2 && sep[0] == sep[1]
    requires !Contains(p, sep)
    requires p == [] || Last(p) != sep[0]
    ensures Split(p + sep + u, sep) == [p] + Split(u, sep)
    decreases |p|
  {
    if p == [] {
      assert p + sep + u == sep + u;
      SplitSepCase(sep + u, sep);
      assert (sep + u)[|sep|..] == u;
    } else {
      var s := p + sep + u;
      CleanPieceNoSepStart(p, u, sep);
      CleanPieceTail(p, sep);
      SplitCleanPiece(p[1..], u, sep);
      ConsParts(p, sep + u);
      ConcatAssoc(p, sep, u);
      ConcatAssoc(p[1..], sep, u);
      SplitConsCase(s, sep);
      PieceAssemble(p, Split(u, sep), Split(s[1..], sep), Split(s, sep));
    }
  }

  /** A string contains every one of its infixes. */
  lemma {:induction false} ContainsInfix(a: string, b: string, c: string)
    ensures Contains(a + b + c, b)
    decreases |a|
  {
    if a == [] {
      assert (a + b + c)[..|b|] == b;
    } else {
      ContainsInfix(a[1..], b, c);
      assert (a + b + c)[1..] == a[1..] + b + c;
    }
  }

  /** A join starts with its first part and contains every part. */
  lemma {:induction false} JoinContainsParts(parts: seq<string>, sep: string)
    ensures parts != [] ==> StartsWith(Join(parts, sep), parts[0])
    ensures forall k :: 0 <= k < |parts| ==> Contains(Join(parts, sep), parts[k])
    decreases |parts|
  {
    if |parts| == 1 {
      ContainsInfix([], parts[0], []);
      assert [] + parts[0] + [] == parts[0];
    } else if |parts| > 1 {
      var rest := Join(parts[1..], sep);
      JoinContainsParts(parts[1..], sep);
      assert Join(parts, sep) == parts[0] + (sep + rest);
      assert Join(parts, sep)[..|parts[0]|] == parts[0];
      forall k | 0 <= k < |parts|
        ensures Contains(Join(parts, sep), parts[k])
      {
        if k == 0 {
          ContainsInfix([], parts[0], sep + rest);
          assert [] + parts[0] + (sep + rest) == Join(parts, sep);
        } else {
          assert parts[k] == parts[1..][k - 1];
          ContainsSuffixPart(parts[0] + sep, rest, parts[k]);
          assert parts[0] + sep + rest == Join(parts, sep);
        }
      }
    }
  }

  /** What a suffix contains, the whole string contains. */
  lemma {:induction false} ContainsSuffixPart(a: string, b: string, sub: string)
    requires Contains(b, sub)
    ensures Contains(a + b, sub)
    decreases |a|
  {
    if a == [] {
      assert a + b == b;
    } else {
      ContainsSuffixPart(a[1..], b, sub);
      assert (a + b)[1..] == a[1..] + b;
    }
  }

  /** Decimal digits of a natural number, as `str(n)` prints it. */
  function NatToString(n: nat): (r: string)
    ensures r != []
    ensures forall i :: 0 <= i < |r| ==> '0' <= r[i] <= '9'
  {
    var d := ((n % 10) + '0' as int) as char;
    if n < 10 then [d] else NatToString(n / 10) + [d]
  }

  /** Number of leading '#' characters: `len(s) - len(s.lstrip("#"))`. */
  function HashRun(line: string): (n: nat)
    ensures n <= |line|
    ensures forall i :: 0 <= i < n ==> line[i] == '#'
    ensures n < |line| ==> line[n] != '#'
  {
    if line != [] && line[0] == '#' then 1 + HashRun(line[1..]) else 0
  }

  /** A prefix that reaches past the leading `#` run has the same run. */
  lemma HashRunPrefix(line: string, e: nat)
    requires HashRun(line) < e <= |line|
    ensures HashRun(line[..e]) == HashRun(line)
  {
    assert forall i :: 0 <= i < e ==> line[..e][i] == line[i];
  }

  /** The string neither starts nor ends with whitespace. */
  predicate NoOuterSpace(s: string) {
    s == [] || (!IsSpace(s[0]) && !IsSpace(s[|s| - 1]))
  }

  lemma StripNoOuterSpace(s: string)
    ensures NoOuterSpace(Strip(s))
  {
    StripTrimsWhitespace(s);
  }

  /** A string without surrounding whitespace is its own `strip()`. */
  lemma StripKeeps(s: string)
    requires NoOuterSpace(s)
    ensures Strip(s) == s
  {
  }

  /** `strip()` gives "" only for an all-whitespace string. */
  lemma StripEmptyAllSpace(s: string)
    requires Strip(s) == ""
    ensures AllSpace(s)
  {
    var l := LStrip(s);
    LStripRemovesLeadingSpace(s);
    RStripRemovesTrailingSpace(l);
    assert l[0..] == l;
    assert l == [];
    assert s[..|s|] == s;
  }

  /** Lower-casing leaves whitespace where it is. */
  lemma LowerNoOuterSpace(s: string)
    requires NoOuterSpace(s)
    ensures NoOuterSpace(Lower(s))
  {
  }

  /** `s.replace(a, b)` for single characters. */
  function ReplaceChar(s: string, a: char, b: char): (r: string)
    ensures |r| == |s|
    ensures forall i :: 0 <= i < |s| ==> r[i] == (if s[i] == a then b else s[i])
  {
    seq(|s|, i requires 0 <= i < |s| => if s[i] == a then b else s[i])
  }

  /** `lstrip` keeps a last character that is not whitespace. */
  lemma {:induction false} LStripKeepsLastChar(s: string)
    requires s != [] && !IsSpace(Last(s))
    ensures LStrip(s) != [] && Last(LStrip(s)) == Last(s)
    decreases |s|
  {
    if IsSpace(s[0]) {
      assert |s| >= 2;
      assert Last(s[1..]) == Last(s);
      LStripKeepsLastChar(s[1..]);
    }
  }

  /** A string whose last character is not whitespace strips to a
      non-empty string ending with that character. */
  lemma StripKeepsLastChar(s: string)
    requires s != [] && !IsSpace(Last(s))
    ensures Strip(s) != [] && Last(Strip(s)) == Last(s)
  {
    LStripKeepsLastChar(s);
  }

  /** Sequence concatenation is associative. */
  lemma ConcatAssoc<T>(a: seq<T>, b: seq<T>, c: seq<T>)
    ensures a + b + c == a + (b + c)
  {
  }
}
