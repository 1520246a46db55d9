/**
 * Python's `str.split(sep)`, `str.split(sep, maxsplit=1)` and
 * `sep.join` on text modelled as `seq<char>`. Splitting is leftmost and
 * non-overlapping: after each separator the scan resumes behind it.
 */
module Text {
  import opened Wrappers

  /** The HTTP line terminator. */
  const CRLF: string := "\r\n"

  /** `sep` occurs in `s` starting at index `i`. */
  ghost predicate OccursAt(s: string, sep: string, i: nat) {
    i + |sep| <= |s| && s[i..i + |sep|] == sep
  }

  ghost predicate Contains(s: string, sep: string) {
    exists i: nat :: OccursAt(s, sep, i)
  }

  /** `i` is the leftmost occurrence of `sep` in `s`. */
  ghost predicate FirstOccurrence(s: string, sep: string, i: nat) {
    OccursAt(s, sep, i) && forall j: nat :: j < i ==> !OccursAt(s, sep, j)
  }

  /** No proper suffix of `sep` is also a prefix of it, so two occurrences never overlap. */
  ghost predicate Borderless(sep: string) {
    forall k :: 0 < k < |sep| ==> sep[k..] != sep[..|sep| - k]
  }

  lemma ShiftOccurs(s: string, sep: string)
    requires |s| > 0
    ensures forall j: nat :: 0 < j ==> (OccursAt(s, sep, j) <==> OccursAt(s[1..], sep, j - 1))
  {
    forall j: nat | 0 < j
      ensures OccursAt(s, sep, j) <==> OccursAt(s[1..], sep, j - 1)
    {
      if j + |sep| <= |s| {
        assert s[1..][j - 1..j - 1 + |sep|] == s[j..j + |sep|];
      }
    }
  }

  /** An occurrence inside a prefix of `s` is an occurrence in `s`. */
  lemma OccursInPrefix(s: string, sep: string, n: nat, j: nat)
    requires n <= |s| && OccursAt(s[..n], sep, j)
    ensures OccursAt(s, sep, j)
  {
    assert s[..n][j..j + |sep|] == s[j..j + |sep|];
  }

  /**
   * `s.split(sep, maxsplit=1)` when it yields two pieces: the text before the
   * leftmost `sep` and the text after it; None when `sep` does not occur.
   */
  function Partition(s: string, sep: string): (r: Option<(string, string)>)
    requires |sep| > 0
    ensures r.Some? ==> |r.value.0| + |sep| + |r.value.1| == |s|
    decreases |s|
  {
    if |s| < |sep| then None
    else if s[..|sep|] == sep then Some(([], s[|sep|..]))
    else
      match Partition(s[1..], sep)
      case None => None
      case Some((a, b)) => Some(([s[0]] + a, b))
  }

  /** Nothing before the leftmost occurrence holds `sep`. */
  lemma FirstFreePrefix(s: string, sep: string, i: nat)
    requires |sep| > 0 && FirstOccurrence(s, sep, i)
    ensures !Contains(s[..i], sep)
  {
    forall j: nat
      ensures !OccursAt(s[..i], sep, j)
    {
      if OccursAt(s[..i], sep, j) {
        OccursInPrefix(s, sep, i, j);
      }
    }
  }

  /** A leftmost occurrence in `s[1..]` moves one place right in `s` when `s` does not start with `sep`. */
  lemma FirstShift(s: string, sep: string, i: nat)
    requires |s| > 0 && !OccursAt(s, sep, 0) && FirstOccurrence(s[1..], sep, i)
    ensures FirstOccurrence(s, sep, i + 1)
  {
    ShiftOccurs(s, sep);
    forall j: nat | j < i + 1
      ensures !OccursAt(s, sep, j)
    {
      if j > 0 {
        assert !OccursAt(s[1..], sep, j - 1);
      }
    }
  }

  /** No occurrence in `s[1..]` and none at the start means none at all. */
  lemma AbsentShift(s: string, sep: string)
    requires |s| > 0 && !OccursAt(s, sep, 0) && !Contains(s[1..], sep)
    ensures !Contains(s, sep)
  {
    ShiftOccurs(s, sep);
    forall i: nat
      ensures !OccursAt(s, sep, i)
    {
      if i > 0 {
        assert !OccursAt(s[1..], sep, i - 1);
      }
    }
  }

  /** The spec of Partition, one recursive step: `s` does not start with `sep`. */
  lemma PartitionStep(s: string, sep: string)
    requires |sep| > 0 && |s| >= |sep| && s[..|sep|] != sep
    requires Partition(s[1..], sep).None? <==> !Contains(s[1..], sep)
    requires Partition(s[1..], sep).Some? ==>
      var r := Partition(s[1..], sep).value;
      s[1..] == r.0 + sep + r.1 && FirstOccurrence(s[1..], sep, |r.0|)
    ensures Partition(s, sep).None? <==> !Contains(s, sep)
    ensures Partition(s, sep).Some? ==>
      var r := Partition(s, sep).value;
      s == r.0 + sep + r.1 && FirstOccurrence(s, sep, |r.0|)
  {
    assert !OccursAt(s, sep, 0);
    match Partition(s[1..], sep)
    case None =>
      assert Partition(s, sep).None?;
      AbsentShift(s, sep);
    case Some((a0, b)) =>
      assert Partition(s, sep) == Some(([s[0]] + a0, b));
      ConsConcat(s, s[0], a0, sep, b);
      FirstShift(s, sep, |a0|);
  }

  lemma ConsConcat(s: string, c: char, a: string, sep: string, b: string)
    requires |s| > 0 && s[0] == c && s[1..] == a + sep + b
    ensures s == [c] + a + sep + b
  {
    assert s == [s[0]] + s[1..];
  }

  /**
   * Partition cuts at the leftmost occurrence: None exactly when `sep` does
   * not occur, and otherwise the text before the cut holds no `sep`.
   */
  lemma {:induction false} PartitionSpec(s: string, sep: string)
    requires |sep| > 0
    ensures Partition(s, sep).None? <==> !Contains(s, sep)
    ensures Partition(s, sep).Some? ==>
      var r := Partition(s, sep).value;
      && s == r.0 + sep + r.1
      && FirstOccurrence(s, sep, |r.0|)
      && !Contains(r.0, sep)
    decreases |s|
  {
    if |s| < |sep| {
      assert forall i: nat :: !OccursAt(s, sep, i);
    } else if s[..|sep|] == sep {
      assert OccursAt(s, sep, 0);
      assert s == [] + sep + s[|sep|..];
      assert forall i: nat :: !OccursAt([], sep, i);
    } else {
      PartitionSpec(s[1..], sep);
      PartitionStep(s, sep);
    }
    if Partition(s, sep).Some? {
      var a := Partition(s, sep).value.0;
      assert s[..|a|] == a;
      FirstFreePrefix(s, sep, |a|);
    }
  }

  /** The text before the leftmost `sep`, or all of `s` (`s.split(sep)[0]`). */
  function Before(s: string, sep: string): string
    requires |sep| > 0
  {
    match Partition(s, sep)
    case None => s
    case Some((a, _)) => a
  }

  /** The text after the leftmost `sep`; empty when `sep` does not occur. */
  function After(s: string, sep: string): string
    requires |sep| > 0
  {
    match Partition(s, sep)
    case None => []
    case Some((_, b)) => b
  }

  /**
   * Before and After cut `s` at the leftmost `sep`; without one, Before is all
   * of `s`. Before never holds `sep`.
   */
  lemma BeforeAfter(s: string, sep: string)
    requires |sep| > 0
    ensures !Contains(Before(s, sep), sep)
    ensures Contains(s, sep) ==> s == Before(s, sep) + sep + After(s, sep)
    ensures Contains(s, sep) ==> FirstOccurrence(s, sep, |Before(s, sep)|)
    ensures !Contains(s, sep) ==> Before(s, sep) == s && After(s, sep) == []
  {
    PartitionSpec(s, sep);
  }

  /** `sep.join(pieces)`. */
  function Join(pieces: seq<string>, sep: string): string
  {
    if |pieces| == 0 then []
    else if |pieces| == 1 then pieces[0]
    else pieces[0] + sep + Join(pieces[1..], sep)
  }

  /** `s.split(sep)`: the pieces between successive leftmost occurrences of `sep`. */
  function Split(s: string, sep: string): (r: seq<string>)
    requires |sep| > 0
    ensures |r| >= 1
    decreases |s|
  {
    match Partition(s, sep)
    case None => [s]
    case Some((a, b)) => [a] + Split(b, sep)
  }

  /**
   * The first piece is the text before the first separator; there are further
   * pieces exactly when the separator occurs, and they are the pieces of the
   * text after it.
   */
  lemma SplitShape(s: string, sep: string)
    requires |sep| > 0
    ensures Split(s, sep)[0] == Before(s, sep)
    ensures |Split(s, sep)| >= 2 <==> Contains(s, sep)
    ensures Contains(s, sep) ==> Split(s, sep)[1..] == Split(After(s, sep), sep)
    ensures !Contains(s, sep) ==> Split(s, sep) == [s]
  {
    PartitionSpec(s, sep);
    match Partition(s, sep)
    case None =>
    case Some((a, b)) =>
      assert ([a] + Split(b, sep))[1..] == Split(b, sep);
  }

  /** The second piece is the text between the first and the second separator. */
  lemma SplitSecond(s: string, sep: string)
    requires |sep| > 0 && Contains(s, sep)
    ensures |Split(s, sep)| >= 2 && Split(s, sep)[1] == Before(After(s, sep), sep)
  {
    SplitShape(s, sep);
    SplitShape(After(s, sep), sep);
  }

  /** Joining the pieces gives back the text. */
  lemma {:induction false} JoinSplit(s: string, sep: string)
    requires |sep| > 0
    ensures Join(Split(s, sep), sep) == s
    decreases |s|
  {
    PartitionSpec(s, sep);
    match Partition(s, sep)
    case None =>
    case Some((a, b)) =>
      JoinSplit(b, sep);
      var rest := Split(b, sep);
      assert ([a] + rest)[1..] == rest;
  }

  /** No piece holds the separator. */
  lemma {:induction false} SplitPiecesFree(s: string, sep: string)
    requires |sep| > 0
    ensures forall k :: 0 <= k < |Split(s, sep)| ==> !Contains(Split(s, sep)[k], sep)
    decreases |s|
  {
    PartitionSpec(s, sep);
    match Partition(s, sep)
    case None =>
    case Some((a, b)) =>
      SplitPiecesFree(b, sep);
      var rest := Split(b, sep);
      assert forall k :: 1 <= k < |[a] + rest| ==> ([a] + rest)[k] == rest[k - 1];
  }

  lemma ContainsChar(s: string, c: char)
    ensures Contains(s, [c]) <==> c in s
  {
    if c in s {
      var i :| 0 <= i < |s| && s[i] == c;
      assert s[i..i + 1] == [c];
      assert OccursAt(s, [c], i);
    }
    if Contains(s, [c]) {
      var i: nat :| OccursAt(s, [c], i);
      assert s[i] == s[i..i + 1][0];
    }
  }

  /** Splitting on one character yields one more piece than the character's occurrences. */
  lemma {:induction false} SplitCharCount(s: string, c: char)
    ensures |Split(s, [c])| == multiset(s)[c] + 1
    decreases |s|
  {
    PartitionSpec(s, [c]);
    match Partition(s, [c])
    case None =>
      ContainsChar(s, c);
      assert multiset(s)[c] == 0;
    case Some((a, b)) =>
      ContainsChar(a, c);
      assert multiset(a)[c] == 0;
      assert multiset(s) == multiset(a) + multiset([c]) + multiset(b);
      SplitCharCount(b, c);
  }

  /** An occurrence of a borderless `sep` right after a `sep`-free `p` is the leftmost one. */
  lemma FirstAfterFreePrefix(p: string, sep: string, rest: string)
    requires |sep| > 0 && Borderless(sep) && !Contains(p, sep)
    ensures FirstOccurrence(p + sep + rest, sep, |p|)
  {
    var s := p + sep + rest;
    assert s[|p|..|p| + |sep|] == sep;
    forall j: nat | j < |p|
      ensures !OccursAt(s, sep, j)
    {
      if j + |sep| <= |p| {
        assert s[j..j + |sep|] == p[j..j + |sep|];
        assert !OccursAt(p, sep, j);
      } else if j + |sep| <= |s| {
        var k := |p| - j;
        assert sep[k..] != sep[..|sep| - k];
        var m :| 0 <= m < |sep| - k && sep[k..][m] != sep[..|sep| - k][m];
        assert s[|p| + m] == sep[m];
        assert s[j..j + |sep|][k + m] == s[|p| + m];
      }
    }
  }

  lemma PartitionJoined(p: string, sep: string, rest: string)
    requires |sep| > 0 && Borderless(sep) && !Contains(p, sep)
    ensures Partition(p + sep + rest, sep) == Some((p, rest))
  {
    var s := p + sep + rest;
    FirstAfterFreePrefix(p, sep, rest);
    PartitionSpec(s, sep);
    var r := Partition(s, sep);
    var a := r.value.0;
    assert OccursAt(s, sep, |a|) && OccursAt(s, sep, |p|);
    assert |a| == |p|;
    assert a == s[..|p|] == p;
    assert r.value.1 == s[|p| + |sep|..] == rest;
  }

  /** Split takes the piece Partition cuts off, then splits the rest. */
  lemma SplitStep(s: string, sep: string)
    requires |sep| > 0
    ensures Partition(s, sep).None? ==> Split(s, sep) == [s]
    ensures Partition(s, sep).Some? ==>
      Split(s, sep) == [Partition(s, sep).value.0] + Split(Partition(s, sep).value.1, sep)
  {
  }

  /** Splitting inverts joining when no piece contains the separator. */
  lemma {:induction false} SplitJoin(pieces: seq<string>, sep: string)
    requires |sep| > 0 && Borderless(sep) && |pieces| >= 1
    requires forall k :: 0 <= k < |pieces| ==> !Contains(pieces[k], sep)
    ensures Split(Join(pieces, sep), sep) == pieces
    decreases |pieces|
  {
    if |pieces| == 1 {
      assert Join(pieces, sep) == pieces[0];
      PartitionSpec(pieces[0], sep);
      SplitStep(pieces[0], sep);
    } else {
      var tail := Join(pieces[1..], sep);
      assert Join(pieces, sep) == pieces[0] + sep + tail;
      PartitionJoined(pieces[0], sep, tail);
      SplitStep(pieces[0] + sep + tail, sep);
      assert forall k :: 0 <= k < |pieces| - 1 ==> pieces[1..][k] == pieces[k + 1];
      SplitJoin(pieces[1..], sep);
      assert pieces == [pieces[0]] + pieces[1..];
    }
  }

  /** The separator-freedom SplitJoin asks for, for a first piece, middle pieces and two last ones. */
  lemma PiecesFreeAround(first: string, middle: seq<string>, x: string, y: string, sep: string)
    requires !Contains(first, sep) && !Contains(x, sep) && !Contains(y, sep)
    requires forall k :: 0 <= k < |middle| ==> !Contains(middle[k], sep)
    ensures var pieces := [first] + middle + [x, y];
      forall k :: 0 <= k < |pieces| ==> !Contains(pieces[k], sep)
  {
    var pieces := [first] + middle + [x, y];
    forall k | 0 <= k < |pieces|
      ensures !Contains(pieces[k], sep)
    {
      if 0 < k < |pieces| - 2 {
        assert pieces[k] == middle[k - 1];
      }
    }
  }

  /** Appending one more piece to a join. */
  lemma {:induction false} JoinSnoc(pieces: seq<string>, last: string, sep: string)
    requires |pieces| >= 1
    ensures Join(pieces + [last], sep) == Join(pieces, sep) + sep + last
    decreases |pieces|
  {
    if |pieces| == 1 {
      assert (pieces + [last])[1..] == [last];
    } else {
      assert (pieces + [last])[1..] == pieces[1..] + [last];
      JoinSnoc(pieces[1..], last, sep);
    }
  }

  /** Two empty pieces after a join add two separators. */
  lemma JoinTwoEmpty(pieces: seq<string>, sep: string)
    requires |pieces| >= 1
    ensures Join(pieces + ["", ""], sep) == Join(pieces, sep) + sep + sep
  {
    JoinSnoc(pieces, "", sep);
    JoinSnoc(pieces + [""], "", sep);
    assert pieces + [""] + [""] == pieces + ["", ""];
    assert Join(pieces, sep) + sep + "" == Join(pieces, sep) + sep;
  }

  /** The last piece of a join is preceded by the separator and ends the text. */
  lemma JoinEndsWithLast(front: seq<string>, last: string, sep: string)
    requires |front| >= 1
    ensures var s := Join(front + [last], sep);
      |last| + |sep| <= |s| && s[|s| - |last| - |sep|..] == sep + last
  {
    JoinSnoc(front, last, sep);
    var a := Join(front, sep);
    assert (a + sep + last)[|a|..] == sep + last;
  }

  lemma JoinThree(a: string, b: string, c: string, sep: string)
    ensures Join([a, b, c], sep) == a + sep + b + sep + c
  {
    assert [a, b, c][1..] == [b, c];
    assert [b, c][1..] == [c];
    assert Join([c], sep) == c;
  }

  /** A text without a carriage return holds no CRLF. */
  lemma NoCrNoCrlf(s: string)
    requires '\r' !in s
    ensures !Contains(s, CRLF)
  {
    forall i: nat
      ensures !OccursAt(s, CRLF, i)
    {
      if i + 2 <= |s| {
        assert s[i..i + 2][0] == s[i];
      }
    }
  }

  lemma CrlfBorderless()
    ensures Borderless(CRLF)
  {
    assert CRLF[1..] == "\n" && CRLF[..1] == "\r";
  }

  lemma CharBorderless(c: char)
    ensures Borderless([c])
  {
  }
}
