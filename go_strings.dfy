/**
 The fragment of Go's `strings` package that the metric-name helpers of the
 service use: `Index`, `Count`, `Replace` with a one-character pattern (once or
 everywhere), `TrimSpace`, `Split` and `Join` on a one-character separator.
 A Go string is modelled as the sequence of the Unicode code points it encodes;
 every pattern used here is a single ASCII character, for which Go's byte-wise
 operations and these code-point-wise ones agree on valid UTF-8.
 */
module GoStrings {

  /** Go's `unicode.IsSpace`, the test `strings.TrimSpace` trims by: the six
      ASCII spaces (tab, newline, vertical tab, form feed, carriage return,
      space), NEL, NO-BREAK SPACE and the other characters with Unicode's
      White_Space property. None of the characters a runtime-metrics name is
      built from (letters, digits, `/`, `:` and `_`) is white space. */
  predicate IsSpace(c: char)
    ensures IsSpace(c) ==> c != '/' && c != ':' && c != '_'
    ensures IsSpace(c) ==> !('a' <= c <= 'z') && !('A' <= c <= 'Z') && !('0' <= c <= '9')
  {
    c == '\t' || c == '\n' || c == '\U{000B}' || c == '\U{000C}' || c == '\r' || c == ' '
    || c == '\U{0085}' || c == '\U{00A0}' || c == '\U{1680}'
    || ('\U{2000}' <= c <= '\U{200A}')
    || c == '\U{2028}' || c == '\U{2029}' || c == '\U{202F}' || c == '\U{205F}' || c == '\U{3000}'
  }

  /** Every character of `s` is white space. */
  predicate AllSpace(s: string) {
    forall k :: 0 <= k < |s| ==> IsSpace(s[k])
  }

  /** Neither the first nor the last character of `s` is white space. */
  predicate NoEdgeSpace(s: string) {
    s == [] || (!IsSpace(s[0]) && !IsSpace(s[|s| - 1]))
  }

  /** `strings.Index(s, string(c))` for a `c` that occurs in `s`: the position of
      its first occurrence. */
  function FirstIndex(s: string, c: char): (i: nat)
    requires c in s
    ensures i < |s| && s[i] == c && c !in s[..i]
  {
    if s[0] == c then 0 else 1 + FirstIndex(s[1..], c)
  }

  /** `strings.Count(s, string(c))`: the number of occurrences of `c` in `s`. */
  function Count(s: string, c: char): (n: nat)
    ensures n <= |s|
  {
    if s == [] then 0 else (if s[0] == c then 1 else 0) + Count(s[1..], c)
  }

  /** `strings.Replace(s, string(from), to, 1)`: like Go, find the first
      occurrence of `from` and put `to` in its place; without one, `s` is
      returned as it is. */
  function ReplaceFirst(s: string, from: char, to: string): (r: string)
    ensures from !in s ==> r == s
    ensures from in s ==> |r| == |s| - 1 + |to|
  {
    if from !in s then s
    else
      var i := FirstIndex(s, from);
      s[..i] + to + s[i + 1..]
  }

  /** `ReplaceFirst` rewrites the first occurrence of `from` and keeps
      everything before and after it. */
  lemma ReplaceFirstAt(s: string, from: char, to: string, i: nat)
    requires i < |s| && s[i] == from && from !in s[..i]
    ensures ReplaceFirst(s, from, to) == s[..i] + to + s[i + 1..]
  {
    FirstIndexAt(s, from, i);
  }

  /** `strings.Replace(s, string(from), string(to), -1)`, which is also
      `strings.ReplaceAll`: every occurrence of `from` becomes `to`, and every
      other character stays where it was. */
  function ReplaceAll(s: string, from: char, to: char): (r: string)
    ensures |r| == |s|
    ensures forall k :: 0 <= k < |s| ==> r[k] == if s[k] == from then to else s[k]
  {
    if s == [] then [] else [if s[0] == from then to else s[0]] + ReplaceAll(s[1..], from, to)
  }

  /** The number of white-space characters `s` starts with. */
  function LeadingSpaces(s: string): (n: nat)
    ensures n <= |s| && AllSpace(s[..n])
    ensures n < |s| ==> !IsSpace(s[n])
  {
    if s != [] && IsSpace(s[0]) then 1 + LeadingSpaces(s[1..]) else 0
  }

  /** The number of white-space characters `s` ends with. */
  function TrailingSpaces(s: string): (n: nat)
    ensures n <= |s| && AllSpace(s[|s| - n..])
    ensures n < |s| ==> !IsSpace(s[|s| - n - 1])
  {
    if s != [] && IsSpace(s[|s| - 1]) then 1 + TrailingSpaces(s[..|s| - 1]) else 0
  }

  /** `strings.TrimSpace`: `s` with all leading and trailing white space removed.
      The result is the stretch of `s` between its leading and its trailing
      white space; it neither starts nor ends with white space. */
  function TrimSpace(s: string): (r: string)
    ensures var start := LeadingSpaces(s);
      start + |r| <= |s| && r == s[start..start + |r|] && AllSpace(s[start + |r|..])
    ensures NoEdgeSpace(r)
  {
    var start := LeadingSpaces(s);
    var tail := s[start..];
    var n := TrailingSpaces(tail);
    var r := tail[..|tail| - n];
    assert r == s[start..start + |r|];
    assert s[start + |r|..] == tail[|tail| - n..];
    assert r != [] ==> r[0] == s[start] && r[|r| - 1] == tail[|tail| - n - 1];
    r
  }

  /** `TrimSpace` leaves a string whose edges are not white space alone. */
  lemma TrimSpaceUnchanged(s: string)
    requires NoEdgeSpace(s)
    ensures TrimSpace(s) == s
  {
    assert LeadingSpaces(s) == 0;
    assert TrailingSpaces(s) == 0;
  }

  /** `strings.Split(s, string(sep))` for a one-character separator: the pieces
      of `s` between occurrences of `sep`, empty pieces kept, so that `n`
      separators give `n + 1` pieces and the empty string gives one empty piece
      (`SplitCount`, `SplitPiecesFree`). */
  function Split(s: string, sep: char): (tokens: seq<string>)
    ensures |tokens| >= 1
  {
    if s == [] then [[]]
    else
      var rest := Split(s[1..], sep);
      if s[0] == sep then [[]] + rest else [[s[0]] + rest[0]] + rest[1..]
  }

  /** `strings.Join(tokens, string(sep))`: the pieces glued together with `sep`
      between neighbours. */
  function Join(tokens: seq<string>, sep: char): (joined: string)
  {
    if |tokens| == 0 then []
    else if |tokens| == 1 then tokens[0]
    else tokens[0] + [sep] + Join(tokens[1..], sep)
  }

  /** `t` is the first field of `s` split at `c`: the run of non-`c`
      characters `s` starts with, ending at the first `c` or at the end. */
  predicate IsFirstField(s: string, c: char, t: string) {
    |t| <= |s| && t == s[..|t|] && c !in t && (|t| == |s| || s[|t|] == c)
  }

  /** A string has only one first field. */
  lemma FirstFieldUnique(s: string, c: char, t: string, u: string)
    requires IsFirstField(s, c, t) && IsFirstField(s, c, u)
    ensures t == u
  {
    assert forall k :: 0 <= k < |t| ==> s[k] != c;
    assert forall k :: 0 <= k < |u| ==> s[k] != c;
  }

  /** A position holding `c` with no earlier `c` is the first index of `c`. */
  lemma {:induction false} FirstIndexAt(s: string, c: char, i: nat)
    requires i < |s| && s[i] == c && c !in s[..i]
    ensures FirstIndex(s, c) == i
  {
    if i > 0 {
      assert s[0] in s[..i];
      assert s[1..][..i - 1] == s[..i][1..];
      FirstIndexAt(s[1..], c, i - 1);
    }
  }

  /** `t` is the second field of `s` split at `c`: the first field of what
      follows the first `c`. */
  predicate IsSecondField(s: string, c: char, t: string) {
    c in s && IsFirstField(s[FirstIndex(s, c) + 1..], c, t)
  }

  /** `t` is the last field of `s` split at `c`: the longest run of non-`c`
      characters that `s` ends with. */
  predicate IsLastField(s: string, c: char, t: string) {
    |t| <= |s| && t == s[|s| - |t|..] && c !in t && (|t| == |s| || s[|s| - |t| - 1] == c)
  }

  /** The last field of `s` split at `c`, read off from the end of `s`
      (`LastFieldIsLastField`). */
  function LastField(s: string, c: char): (t: string)
    ensures |t| <= |s|
  {
    if s == [] || s[|s| - 1] == c then [] else LastField(s[..|s| - 1], c) + [s[|s| - 1]]
  }

  /** `Count` is zero exactly when the character does not occur. */
  lemma {:induction false} CountZero(s: string, c: char)
    ensures Count(s, c) == 0 <==> c !in s
  {
    if s != [] {
      CountZero(s[1..], c);
      assert s == [s[0]] + s[1..];
    }
  }

  /** `n` separators give `n + 1` pieces. */
  lemma {:induction false} SplitCount(s: string, sep: char)
    ensures |Split(s, sep)| == Count(s, sep) + 1
  {
    if s != [] {
      SplitCount(s[1..], sep);
    }
  }

  /** A split gives a single piece exactly when the separator does not occur. */
  lemma SplitSingle(s: string, sep: char)
    ensures |Split(s, sep)| == 1 <==> sep !in s
  {
    SplitCount(s, sep);
    CountZero(s, sep);
  }

  /** No piece of a split contains the separator. */
  lemma {:induction false} SplitPiecesFree(s: string, sep: char)
    ensures forall k :: 0 <= k < |Split(s, sep)| ==> sep !in Split(s, sep)[k]
  {
    if s != [] {
      SplitPiecesFree(s[1..], sep);
      var rest := Split(s[1..], sep);
      if s[0] != sep {
        assert sep !in [s[0]] + rest[0];
      }
    }
  }

  /** Gluing `x` to the first of several pieces glues it to their join. */
  lemma JoinConsHead(x: char, tokens: seq<string>, sep: char)
    requires |tokens| >= 1
    ensures Join([[x] + tokens[0]] + tokens[1..], sep) == [x] + Join(tokens, sep)
  {
    var glued := [[x] + tokens[0]] + tokens[1..];
    assert glued[1..] == tokens[1..];
  }

  /** Joining the pieces of a split with the same separator gives back the
      string that was split. */
  lemma {:induction false} JoinSplit(s: string, sep: char)
    ensures Join(Split(s, sep), sep) == s
  {
    if s != [] {
      var rest := Split(s[1..], sep);
      JoinSplit(s[1..], sep);
      if s[0] == sep {
        assert ([[]] + rest)[1..] == rest;
      } else {
        JoinConsHead(s[0], rest, sep);
      }
      assert s == [s[0]] + s[1..];
    }
  }

  /** The first piece of a split is the first field. */
  lemma {:induction false} SplitFirst(s: string, c: char)
    ensures IsFirstField(s, c, Split(s, c)[0])
  {
    if s == [] {
      assert Split(s, c)[0] == [];
    } else if s[0] == c {
      assert Split(s, c)[0] == [];
    } else {
      var rest := s[1..];
      SplitFirst(rest, c);
      var t := Split(rest, c)[0];
      assert Split(s, c)[0] == [s[0]] + t;
      assert s[..|t| + 1] == [s[0]] + rest[..|t|];
      assert |t| + 1 < |s| ==> s[|t| + 1] == rest[|t|];
    }
  }

  /** The second piece of a split is the second field. */
  lemma {:induction false} SplitSecond(s: string, c: char)
    requires c in s
    ensures |Split(s, c)| >= 2 && IsSecondField(s, c, Split(s, c)[1])
  {
    var rest := Split(s[1..], c);
    if s[0] == c {
      SplitFirst(s[1..], c);
      assert Split(s, c)[1] == rest[0];
    } else {
      assert c in s[1..] by {
        var k :| 0 <= k < |s| && s[k] == c;
        assert s[1..][k - 1] == c;
      }
      SplitSecond(s[1..], c);
      assert Split(s, c)[1] == rest[1];
      assert s[FirstIndex(s, c) + 1..] == s[1..][FirstIndex(s[1..], c) + 1..];
    }
  }

  /** The last piece of a split is the last field. */
  lemma {:induction false} SplitLastIsLastField(s: string, c: char)
    ensures var tokens := Split(s, c); IsLastField(s, c, tokens[|tokens| - 1])
  {
    if s != [] {
      var rest := Split(s[1..], c);
      SplitLastIsLastField(s[1..], c);
      SplitSingle(s[1..], c);
      if s[0] == c || |rest| > 1 {
        SplitLastTail(s, c);
        LastFieldCons(s, c, rest[|rest| - 1]);
      } else {
        SplitWhole(s, c);
      }
    }
  }

  /** A string without the separator splits into itself alone. */
  lemma SplitWhole(s: string, sep: char)
    requires sep !in s
    ensures Split(s, sep) == [s]
  {
    SplitSingle(s, sep);
    JoinSplit(s, sep);
  }

  /** When the first character is a separator, or the rest holds one, the last
      piece of a split is the last piece of the split of the rest. */
  lemma SplitLastTail(s: string, c: char)
    requires s != []
    requires s[0] == c || |Split(s[1..], c)| > 1
    ensures var tokens, rest := Split(s, c), Split(s[1..], c);
      tokens[|tokens| - 1] == rest[|rest| - 1]
  {
    var tokens, rest := Split(s, c), Split(s[1..], c);
    if s[0] == c {
      assert tokens == [[]] + rest;
      assert |tokens| == |rest| + 1;
    } else {
      assert tokens == [[s[0]] + rest[0]] + rest[1..];
      assert |tokens| == |rest|;
      assert tokens[|tokens| - 1] == rest[1..][|rest| - 2];
    }
  }

  /** The last field of the rest of `s` is the last field of `s` when it does
      not reach back to the first character, or that character is `c`. */
  lemma LastFieldCons(s: string, c: char, t: string)
    requires s != [] && IsLastField(s[1..], c, t)
    requires s[0] == c || c in s[1..]
    ensures IsLastField(s, c, t)
  {
    var rest := s[1..];
    assert s[|s| - |t|..] == rest[|rest| - |t|..];
    if |t| == |rest| {
      assert t == rest;
      assert s[|s| - |t| - 1] == s[0];
    } else {
      assert s[|s| - |t| - 1] == rest[|rest| - |t| - 1];
    }
  }

  /** Whatever is put in front of `s`, its last field stays when it does not
      reach back to the start of `s`, or when what is put in front ends in `c`. */
  lemma LastFieldPrepend(a: string, s: string, c: char, t: string)
    requires IsLastField(s, c, t)
    requires |t| < |s| || (a != [] && a[|a| - 1] == c)
    ensures IsLastField(a + s, c, t)
  {
    var whole := a + s;
    assert whole[|whole| - |t|..] == s[|s| - |t|..];
    assert |t| < |s| ==> whole[|whole| - |t| - 1] == s[|s| - |t| - 1];
    assert |t| == |s| ==> whole[|whole| - |t| - 1] == a[|a| - 1];
  }

  /** Joining pieces without `sep` and appending a tail without `sep` ends in
      the last piece followed by that tail. */
  lemma {:induction false} JoinLastField(tokens: seq<string>, sep: char, tail: string)
    requires |tokens| >= 1
    requires forall k :: 0 <= k < |tokens| ==> sep !in tokens[k]
    requires sep !in tail
    ensures IsLastField(Join(tokens, sep) + tail, sep, tokens[|tokens| - 1] + tail)
  {
    if |tokens| > 1 {
      var rest := tokens[1..];
      JoinLastField(rest, sep, tail);
      assert Join(tokens, sep) + tail == (tokens[0] + [sep]) + (Join(rest, sep) + tail);
      LastFieldPrepend(tokens[0] + [sep], Join(rest, sep) + tail, sep, rest[|rest| - 1] + tail);
    }
  }

  /** `LastField` satisfies `IsLastField`. */
  lemma {:induction false} LastFieldIsLastField(s: string, c: char)
    ensures IsLastField(s, c, LastField(s, c))
  {
    if s != [] && s[|s| - 1] != c {
      var prefix := s[..|s| - 1];
      LastFieldIsLastField(prefix, c);
      var u := LastField(prefix, c);
      assert s[|s| - |u| - 1..] == prefix[|prefix| - |u|..] + [s[|s| - 1]];
      if |u| < |prefix| {
        assert s[|s| - |u| - 2] == prefix[|prefix| - |u| - 1];
      }
    }
  }

  /** A string has only one last field. */
  lemma LastFieldUnique(s: string, c: char, t: string)
    requires IsLastField(s, c, t)
    ensures t == LastField(s, c)
  {
    LastFieldIsLastField(s, c);
    var u := LastField(s, c);
    assert |t| == |u|;
  }

  /** The last piece of a split is `LastField`. */
  lemma SplitLast(s: string, c: char)
    ensures var tokens := Split(s, c); tokens[|tokens| - 1] == LastField(s, c)
  {
    SplitLastIsLastField(s, c);
    var tokens := Split(s, c);
    LastFieldUnique(s, c, tokens[|tokens| - 1]);
  }

  /** Replacing every `from` by `to` distributes over concatenation. */
  lemma ReplaceAllAppend(s: string, t: string, from: char, to: char)
    ensures ReplaceAll(s + t, from, to) == ReplaceAll(s, from, to) + ReplaceAll(t, from, to)
  {
    var lhs, rhs := ReplaceAll(s + t, from, to), ReplaceAll(s, from, to) + ReplaceAll(t, from, to);
    assert |lhs| == |rhs|;
    forall k | 0 <= k < |lhs| ensures lhs[k] == rhs[k] {
      if k < |s| { assert (s + t)[k] == s[k]; } else { assert (s + t)[k] == t[k - |s|]; }
    }
  }

  /** A string without `from` is left alone by replacing `from`. */
  lemma ReplaceAllAbsent(s: string, from: char, to: char)
    requires from !in s
    ensures ReplaceAll(s, from, to) == s
  {
    var r := ReplaceAll(s, from, to);
    assert forall k :: 0 <= k < |s| ==> r[k] == s[k];
  }

  /** Replacing the separator of a join of separator-free pieces by another
      character joins the same pieces with that character. */
  lemma {:induction false} ReplaceAllJoin(tokens: seq<string>, from: char, to: char)
    requires forall k :: 0 <= k < |tokens| ==> from !in tokens[k]
    ensures ReplaceAll(Join(tokens, from), from, to) == Join(tokens, to)
  {
    if |tokens| == 1 {
      ReplaceAllAbsent(tokens[0], from, to);
    } else if |tokens| > 1 {
      ReplaceAllAppend(tokens[0] + [from], Join(tokens[1..], from), from, to);
      ReplaceAllAppend(tokens[0], [from], from, to);
      ReplaceAllAbsent(tokens[0], from, to);
      ReplaceAllJoin(tokens[1..], from, to);
    }
  }
}
