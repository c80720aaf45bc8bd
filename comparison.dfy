/** The total order Rust's `str` implements with `Ord`: lexicographic
    comparison of the bytes. */
module Comparison {
  import opened Utf8

  datatype Ordering = Less | Equal | Greater {
    /** The ordering seen from the other operand. */
    function Reverse(): Ordering {
      match this
      case Less => Greater
      case Equal => Equal
      case Greater => Less
    }
  }

  /** Byte-wise lexicographic comparison; a proper prefix comes first. */
  function Compare(a: seq<Byte>, b: seq<Byte>): (r: Ordering)
    ensures r == Equal ==> |a| == |b|
    ensures |a| < |b| && a == b[..|a|] ==> r == Less
  {
    if a == [] then (if b == [] then Equal else Less)
    else if b == [] then Greater
    else if a[0] < b[0] then Less
    else if a[0] > b[0] then Greater
    else Compare(a[1..], b[1..])
  }

  /** Independent definition of "`a` sorts before `b`": `a` is a proper
      prefix of `b`, or the first byte where they differ is smaller in `a`. */
  ghost predicate LexLess(a: seq<Byte>, b: seq<Byte>) {
    (|a| < |b| && a == b[..|a|]) ||
    exists k :: 0 <= k < |a| && k < |b| && a[..k] == b[..k] && a[k] < b[k]
  }

  /** `Compare` answers `Equal` exactly on equal byte sequences. */
  lemma {:induction false} CompareEqual(a: seq<Byte>, b: seq<Byte>)
    ensures Compare(a, b) == Equal <==> a == b
  {
    if a != [] && b != [] && a[0] == b[0] {
      CompareEqual(a[1..], b[1..]);
      if a[1..] == b[1..] {
        assert a == [a[0]] + a[1..] && b == [b[0]] + b[1..];
      }
    }
  }

  /** Swapping the operands reverses the answer (antisymmetry). */
  lemma {:induction false} CompareReverse(a: seq<Byte>, b: seq<Byte>)
    ensures Compare(b, a) == Compare(a, b).Reverse()
  {
    if a != [] && b != [] && a[0] == b[0] {
      CompareReverse(a[1..], b[1..]);
    }
  }

  /** `Less` is transitive. */
  lemma {:induction false} CompareTransitive(a: seq<Byte>, b: seq<Byte>, c: seq<Byte>)
    requires Compare(a, b) == Less && Compare(b, c) == Less
    ensures Compare(a, c) == Less
  {
    if a != [] && b != [] && c != [] && a[0] == b[0] == c[0] {
      CompareTransitive(a[1..], b[1..], c[1..]);
    }
  }

  /** `Compare` answers `Less` exactly when `a` sorts lexicographically before `b`. */
  lemma {:induction false} CompareLess(a: seq<Byte>, b: seq<Byte>)
    ensures Compare(a, b) == Less <==> LexLess(a, b)
  {
    if a == [] {
      assert b != [] ==> a == b[..0];
    } else if b == [] {
    } else if a[0] < b[0] {
      assert a[..0] == b[..0];
    } else if a[0] > b[0] {
      assert forall k :: 0 < k <= |a| && k <= |b| ==> a[..k][0] != b[..k][0];
      assert a[..|a|] == a;
    } else {
      CompareLess(a[1..], b[1..]);
      LexLessTail(a, b);
    }
  }

  /** With equal first bytes, `LexLess` is decided by the rest. */
  lemma LexLessTail(a: seq<Byte>, b: seq<Byte>)
    requires a != [] && b != [] && a[0] == b[0]
    ensures LexLess(a, b) <==> LexLess(a[1..], b[1..])
  {
    var a', b' := a[1..], b[1..];
    if |a| < |b| && a == b[..|a|] {
      assert a' == b'[..|a'|];
    }
    if |a'| < |b'| && a' == b'[..|a'|] {
      assert a == [a[0]] + a' && b[..|a|] == [b[0]] + b'[..|a'|];
    }
    if k :| 0 <= k < |a| && k < |b| && a[..k] == b[..k] && a[k] < b[k] {
      assert k > 0;
      assert a'[..k - 1] == a[..k][1..] == b[..k][1..] == b'[..k - 1];
      assert a'[k - 1] < b'[k - 1];
    }
    if k :| 0 <= k < |a'| && k < |b'| && a'[..k] == b'[..k] && a'[k] < b'[k] {
      assert a[..k + 1] == [a[0]] + a'[..k] && b[..k + 1] == [b[0]] + b'[..k];
      assert a[k + 1] < b[k + 1];
    }
  }
}
