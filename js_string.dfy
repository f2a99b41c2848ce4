/**
 * The JavaScript string built-ins the widget relies on: `trim`, `split`,
 * `indexOf`, `lastIndexOf`, `replace` with a string pattern, `substr` and
 * `toLowerCase`. A JavaScript string is modelled as a `string`; positions and
 * lengths count its characters.
 */
module JsString {
  import opened Wrappers

  /** True when `x` occurs in `s` starting at position `k`. */
  predicate OccursAt(s: string, x: string, k: int) {
    0 <= k && k + |x| <= |s| && s[k..k + |x|] == x
  }

  /** An occurrence inside an occurrence is an occurrence. */
  lemma OccursWithin(s: string, t: string, u: string, p: nat, p': nat)
    requires OccursAt(s, t, p) && OccursAt(t, u, p')
    ensures OccursAt(s, u, p + p')
  {
    forall i | 0 <= i < |u|
      ensures s[p + p' + i] == u[i]
    {
      assert t[p' + i] == u[i];
      assert s[p + p' + i] == t[p' + i];
    }
    assert s[p + p'..p + p' + |u|] == u;
  }

  /** The characters `String.prototype.trim` removes: ECMAScript WhiteSpace and LineTerminator. */
  predicate IsWhitespace(c: char) {
    var n := c as int;
    n == 0x09 || n == 0x0A || n == 0x0B || n == 0x0C || n == 0x0D || n == 0x20 || n == 0xA0
    || n == 0x1680 || (0x2000 <= n <= 0x200A) || n == 0x2028 || n == 0x2029 || n == 0x202F
    || n == 0x205F || n == 0x3000 || n == 0xFEFF
  }

  /** `s.trim()`: `s` without its leading and trailing whitespace. */
  function Trim(s: string): (r: string)
    ensures |r| <= |s|
    decreases |s|
  {
    if |s| > 0 && IsWhitespace(s[0]) then Trim(s[1..])
    else if |s| > 0 && IsWhitespace(s[|s| - 1]) then Trim(s[..|s| - 1])
    else s
  }

  /**
   * What `trim` keeps is a run of `s` with nothing but whitespace on either
   * side of it.
   */
  lemma {:induction false} TrimWithin(s: string) returns (p: nat)
    ensures OccursAt(s, Trim(s), p)
    ensures forall i :: 0 <= i < p ==> IsWhitespace(s[i])
    ensures forall i :: p + |Trim(s)| <= i < |s| ==> IsWhitespace(s[i])
    decreases |s|
  {
    if |s| > 0 && IsWhitespace(s[0]) {
      var p' := TrimWithin(s[1..]);
      p := p' + 1;
      assert OccursAt(s, s[1..], 1);
      OccursWithin(s, s[1..], Trim(s), 1, p');
      assert forall i :: 1 <= i < |s| ==> s[i] == s[1..][i - 1];
    } else if |s| > 0 && IsWhitespace(s[|s| - 1]) {
      p := TrimWithin(s[..|s| - 1]);
      assert OccursAt(s, s[..|s| - 1], 0);
      OccursWithin(s, s[..|s| - 1], Trim(s), 0, p);
    } else {
      p := 0;
    }
  }

  /** What `trim` keeps neither starts nor ends with whitespace. */
  lemma {:induction false} TrimEnds(s: string)
    ensures Trim(s) == [] || (!IsWhitespace(Trim(s)[0]) && !IsWhitespace(Trim(s)[|Trim(s)| - 1]))
    decreases |s|
  {
    if |s| > 0 && IsWhitespace(s[0]) {
      TrimEnds(s[1..]);
    } else if |s| > 0 && IsWhitespace(s[|s| - 1]) {
      TrimEnds(s[..|s| - 1]);
    }
  }

  /**
   * `s.indexOf(x)`: the first position at which `x` occurs in `s` (0 when
   * `x` is empty), or -1 when it does not occur.
   */
  function IndexOf(s: string, x: string): (r: int)
    ensures -1 <= r && (r >= 0 ==> r + |x| <= |s|)
  {
    IndexOfFrom(s, x, 0)
  }

  function IndexOfFrom(s: string, x: string, from: nat): (r: int)
    ensures -1 <= r && (r >= 0 ==> r + |x| <= |s|)
    decreases |s| - from
  {
    if from + |x| > |s| then -1
    else if s[from..from + |x|] == x then from
    else IndexOfFrom(s, x, from + 1)
  }

  /** `IndexOfFrom` finds the first occurrence at or after `from`, and -1 only when there is none. */
  lemma {:induction false} IndexOfFromFirst(s: string, x: string, from: nat)
    ensures var r := IndexOfFrom(s, x, from);
      (r == -1 || (from <= r && OccursAt(s, x, r)))
      && forall k :: from <= k && (r == -1 || k < r) ==> !OccursAt(s, x, k)
    decreases |s| - from
  {
    if from + |x| <= |s| && s[from..from + |x|] != x {
      IndexOfFromFirst(s, x, from + 1);
    }
  }

  /** `indexOf` returns the first occurrence of `x` in `s`, and -1 only when `x` does not occur. */
  lemma IndexOfFirst(s: string, x: string)
    ensures IndexOf(s, x) == -1 || OccursAt(s, x, IndexOf(s, x))
    ensures forall k :: 0 <= k && (IndexOf(s, x) == -1 || k < IndexOf(s, x)) ==> !OccursAt(s, x, k)
  {
    IndexOfFromFirst(s, x, 0);
  }

  /**
   * `s.lastIndexOf(x, position)`: the last position no later than
   * `position` (negative positions count as 0) at which `x` occurs in `s`, or -1.
   */
  function LastIndexOf(s: string, x: string, position: int): int {
    LastIndexOfAt(s, x, Min(Max(position, 0), |s|))
  }

  function LastIndexOfAt(s: string, x: string, k: int): int
    decreases k + 1
  {
    if k < 0 then -1
    else if OccursAt(s, x, k) then k
    else LastIndexOfAt(s, x, k - 1)
  }

  /** `LastIndexOfAt` finds the last occurrence at or before `k`, and -1 only when there is none. */
  lemma {:induction false} LastIndexOfAtLast(s: string, x: string, k: int)
    ensures var r := LastIndexOfAt(s, x, k);
      (r == -1 || (r <= k && OccursAt(s, x, r)))
      && forall j :: r < j <= k ==> !OccursAt(s, x, j)
    decreases k + 1
  {
    if k >= 0 && !OccursAt(s, x, k) {
      LastIndexOfAtLast(s, x, k - 1);
    }
  }

  /**
   * `lastIndexOf` returns the last occurrence of `x` no later than `position`
   * (a negative position counts as 0), and -1 only when there is none.
   */
  lemma LastIndexOfLast(s: string, x: string, position: int)
    ensures var r := LastIndexOf(s, x, position);
      (r == -1 || (r <= Max(position, 0) && OccursAt(s, x, r)))
      && forall k :: r < k <= Max(position, 0) ==> !OccursAt(s, x, k)
  {
    LastIndexOfAtLast(s, x, Min(Max(position, 0), |s|));
  }

  /**
   * `s.replace(pattern, replacement)` with a string pattern and a
   * replacement holding no `$` patterns (JavaScript expands `$&`, `` $` ``,
   * `$'` and `$$` in a replacement string; the directive passes only `''`):
   * only the first, case-sensitive occurrence of `pattern` is replaced.
   */
  function ReplaceFirst(s: string, pattern: string, replacement: string): string
  {
    var k := IndexOf(s, pattern);
    if k < 0 then s else s[..k] + replacement + s[k + |pattern|..]
  }

  /**
   * `replace` leaves `s` alone when `pattern` does not occur in it, and
   * replaces the leading copy when `s` starts with `pattern`.
   */
  lemma ReplaceFirstFacts(s: string, pattern: string, replacement: string)
    ensures IndexOf(s, pattern) == -1 ==> ReplaceFirst(s, pattern, replacement) == s
    ensures pattern <= s ==> ReplaceFirst(s, pattern, replacement) == replacement + s[|pattern|..]
    ensures IndexOf(s, pattern) != -1 ==>
      |ReplaceFirst(s, pattern, replacement)| == |s| - |pattern| + |replacement|
  {
    IndexOfFirst(s, pattern);
    if pattern <= s {
      assert OccursAt(s, pattern, 0);
    }
  }

  /**
   * `s.split(sep)` with a one-character separator: the pieces between
   * separators, always at least one.
   */
  function Split(s: string, sep: char): (r: seq<string>)
    ensures |r| >= 1
    decreases |s|
  {
    if |s| == 0 then [""]
    else if s[0] == sep then [""] + Split(s[1..], sep)
    else
      var rest := Split(s[1..], sep);
      [[s[0]] + rest[0]] + rest[1..]
  }

  /** No piece of a split contains the separator. */
  lemma {:induction false} SplitPiecesFree(s: string, sep: char)
    ensures forall j :: 0 <= j < |Split(s, sep)| ==> sep !in Split(s, sep)[j]
    decreases |s|
  {
    if |s| > 0 {
      SplitPiecesFree(s[1..], sep);
      var rest := Split(s[1..], sep);
      var r := Split(s, sep);
      if s[0] != sep {
        assert r[0] == [s[0]] + rest[0];
        forall j | 1 <= j < |r| ensures sep !in r[j] {
          assert r[j] == rest[j];
        }
      } else {
        forall j | 1 <= j < |r| ensures sep !in r[j] {
          assert r[j] == rest[j - 1];
        }
      }
    }
  }

  /** `pieces.join(sep)`, the inverse of `Split`. */
  function Join(pieces: seq<string>, sep: char): string
    requires |pieces| >= 1
  {
    if |pieces| == 1 then pieces[0] else pieces[0] + [sep] + Join(pieces[1..], sep)
  }

  /** Joining the pieces of `s` gives back `s`. */
  lemma {:induction false} JoinSplit(s: string, sep: char)
    ensures Join(Split(s, sep), sep) == s
    decreases |s|
  {
    if |s| == 0 {
    } else if s[0] == sep {
      JoinSplit(s[1..], sep);
      var rest := Split(s[1..], sep);
      assert Split(s, sep)[1..] == rest;
    } else {
      JoinSplit(s[1..], sep);
      var rest := Split(s[1..], sep);
      var r := Split(s, sep);
      if |rest| == 1 {
        assert r == [[s[0]] + rest[0]];
      } else {
        assert r[1..] == rest[1..];
        assert Join(rest, sep) == rest[0] + [sep] + Join(rest[1..], sep);
      }
    }
  }

  /** Splitting a join of separator-free pieces gives back the pieces. */
  lemma {:induction false} SplitJoin(pieces: seq<string>, sep: char)
    requires |pieces| >= 1
    requires forall j :: 0 <= j < |pieces| ==> sep !in pieces[j]
    ensures Split(Join(pieces, sep), sep) == pieces
    decreases |pieces|, |pieces[0]|
  {
    var s := Join(pieces, sep);
    if |pieces[0]| == 0 {
      if |pieces| == 1 {
      } else {
        SplitJoin(pieces[1..], sep);
        assert s == [sep] + Join(pieces[1..], sep);
        assert s[1..] == Join(pieces[1..], sep);
      }
    } else {
      var tail := [pieces[0][1..]] + pieces[1..];
      assert pieces[0] == [pieces[0][0]] + pieces[0][1..];
      assert sep !in pieces[0][1..];
      assert forall j :: 1 <= j < |tail| ==> tail[j] == pieces[j];
      SplitJoin(tail, sep);
      if |pieces| == 1 {
        assert s[1..] == Join(tail, sep);
      } else {
        assert tail[1..] == pieces[1..];
        assert s[1..] == Join(tail, sep);
      }
      assert s[0] == pieces[0][0];
    }
  }

  /** Every piece of `s` occurs in `s`. */
  lemma {:induction false} SplitPieceAt(s: string, sep: char, j: nat) returns (p: nat)
    requires j < |Split(s, sep)|
    ensures OccursAt(s, Split(s, sep)[j], p)
    ensures j == 0 ==> p == 0
    decreases |s|
  {
    var r := Split(s, sep);
    if |s| == 0 {
      p := 0;
    } else if s[0] == sep {
      if j == 0 {
        p := 0;
      } else {
        var p' := SplitPieceAt(s[1..], sep, j - 1);
        p := p' + 1;
        assert r[j] == Split(s[1..], sep)[j - 1];
        assert OccursAt(s, s[1..], 1);
        OccursWithin(s, s[1..], r[j], 1, p');
      }
    } else {
      var rest := Split(s[1..], sep);
      if j == 0 {
        var p' := SplitPieceAt(s[1..], sep, 0);
        p := 0;
        assert s[1..1 + |rest[0]|] == s[1..][p'..p' + |rest[0]|];
        assert s[..1 + |rest[0]|] == [s[0]] + s[1..1 + |rest[0]|];
      } else {
        var p' := SplitPieceAt(s[1..], sep, j);
        p := p' + 1;
        assert r[j] == rest[j];
        assert OccursAt(s, s[1..], 1);
        OccursWithin(s, s[1..], r[j], 1, p');
      }
    }
  }

  function Min(a: int, b: int): int { if a <= b then a else b }
  function Max(a: int, b: int): int { if a >= b then a else b }

  /**
   * `s.substr(start, length)`, or `s.substr(start)` when `length` is `None`:
   * a negative start counts from the end, and both bounds are clamped to `s`.
   */
  function Substr(s: string, start: int, length: Option<int>): (r: string)
    ensures |r| <= |s|
    ensures start >= |s| ==> r == []
    ensures 0 <= start <= |s| && length.None? ==> r == s[start..]
    ensures 0 <= start && length.Some? && length.value >= 0 ==>
      |r| == Min(length.value, |s| - Min(start, |s|)) && r <= s[Min(start, |s|)..]
  {
    var from := if start < 0 then Max(|s| + start, 0) else Min(start, |s|);
    var count := match length
      case None => |s| - from
      case Some(l) => Min(Max(l, 0), |s| - from);
    s[from..from + count]
  }

  /** Cutting `s.substr(offset)` after `length` characters splits it into two `substr` calls. */
  lemma SubstrSplit(s: string, offset: nat, length: nat)
    ensures Substr(s, offset, Some(length)) + Substr(s, offset + length, None) == Substr(s, offset, None)
  {
    var from := Min(offset, |s|);
    var mid := Min(offset + length, |s|);
    assert Substr(s, offset, Some(length)) == s[from..mid];
    assert Substr(s, offset + length, None) == s[mid..];
    assert s[from..] == s[from..mid] + s[mid..];
  }

  function LowerChar(c: char): char {
    if 'A' <= c <= 'Z' then (c as int + 32) as char else c
  }

  /** `s.toLowerCase()` on the ASCII letters. */
  function LowerCase(s: string): (r: string)
    ensures |r| == |s|
  {
    seq(|s|, i requires 0 <= i < |s| => LowerChar(s[i]))
  }
}
