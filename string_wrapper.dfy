/** `StringWrapper`: a string of fixed capacity over a byte buffer and a
    length. Bytes `[0, len)` of the buffer are the text and are always
    well-formed UTF-8; bytes from `len` on are stale and never observed. */
module StringWrappers {
  import opened Utf8
  import opened Comparison
  import opened Results

  /** The one error value: `expected` bytes were needed, `actual` were available. */
  datatype Error = InsufficientLength(expected: nat, actual: nat)

  /** Copies `src` into the slice `dst[start..]`, which must be long enough. */
  method CopyMemory(src: seq<Byte>, dst: array<Byte>, start: nat)
    requires start <= dst.Length && |src| <= dst.Length - start
    modifies dst
    ensures dst[..] == old(dst[..start]) + src + old(dst[start + |src|..])
  {
    var i := 0;
    while i < |src|
      invariant 0 <= i <= |src|
      invariant forall k :: 0 <= k < start ==> dst[k] == old(dst[k])
      invariant forall k :: 0 <= k < i ==> dst[start + k] == src[k]
      invariant forall k :: start + i <= k < dst.Length ==> dst[k] == old(dst[k])
    {
      dst[start + i] := src[i];
      i := i + 1;
    }
    ghost var was := old(dst[..]);
    assert dst[..] == was[..start] + src + was[start + |src|..];
  }

  /** The boundary-trimming loop of `push_partial_str`: from position `start`
      of a well-formed text, step back to the nearest byte that starts a
      sequence. It takes at most three steps and never goes below 0. */
  method TrimToBoundary(s: seq<Byte>, start: nat) returns (i: nat)
    requires ValidUtf8(s) && start < |s|
    ensures i <= start < i + 4
    ensures StartsWellFormedUtf8Sequence(s[i])
    ensures forall j :: i < j <= start ==> !StartsWellFormedUtf8Sequence(s[j])
  {
    ghost var nearest := NearbyStart(s, start);
    i := start;
    while !StartsWellFormedUtf8Sequence(s[i])
      invariant nearest <= i <= start
      invariant forall j :: i < j <= start ==> !StartsWellFormedUtf8Sequence(s[j])
      decreases i
    {
      i := i - 1;
    }
  }

  class StringWrapper {
    var len: nat
    const buffer: array<Byte>

    /** The type invariant: the length fits and the prefix is well-formed UTF-8. */
    ghost predicate Valid()
      reads this, buffer
    {
      len <= buffer.Length && ValidUtf8(buffer[..len])
    }

    /** An empty string that takes over `buffer`; the bytes already there
        are ignored. Rust moves the buffer in, so the string gets a copy
        that no other reference can reach. */
    constructor (buffer: array<Byte>)
      ensures fresh(this.buffer) && this.buffer[..] == old(buffer[..]) && len == 0
      ensures Valid() && Deref() == []
    {
      var own := new Byte[buffer.Length](i reads buffer requires 0 <= i < buffer.Length => buffer[i]);
      this.buffer := own;
      len := 0;
      new;
      assert this.buffer[..] == buffer[..];
    }

    /** The unchecked constructor: the caller promises the length fits and
        the prefix is well-formed. The buffer is moved in, as by `new`. */
    constructor FromRawParts(buffer: array<Byte>, len: nat)
      requires len <= buffer.Length && ValidUtf8(buffer[..len])
      ensures fresh(this.buffer) && this.buffer[..] == old(buffer[..]) && this.len == len
      ensures Valid() && Deref() == old(buffer[..len])
    {
      var own := new Byte[buffer.Length](i reads buffer requires 0 <= i < buffer.Length => buffer[i]);
      this.buffer := own;
      this.len := len;
      new;
      assert this.buffer[..] == buffer[..];
      assert this.buffer[..len] == buffer[..len];
    }

    /** Gives the backing storage back. The buffers of the tests are `Copy`,
        so the caller gets a copy and the string stays usable; its first
        `len` bytes hold the text. */
    method IntoBuffer() returns (b: array<Byte>)
      requires Valid()
      ensures fresh(b) && b[..] == Bytes() && b[..len] == Deref()
    {
      b := new Byte[buffer.Length](i reads buffer requires 0 <= i < buffer.Length => buffer[i]);
      assert b[..] == buffer[..];
    }

    /** The whole backing storage, stale bytes included. */
    function Bytes(): (r: seq<Byte>)
      reads this, buffer
      requires Valid()
      ensures |r| == Capacity() && r[..Len()] == Deref()
    {
      buffer[..]
    }

    /** The logical view (`Deref`): the text, which is well-formed UTF-8. */
    function Deref(): (s: seq<Byte>)
      reads this, buffer
      requires Valid()
      ensures ValidUtf8(s) && |s| == len
    {
      buffer[..len]
    }

    /** Number of bytes of text. */
    function Len(): (n: nat)
      reads this, buffer
      requires Valid()
      ensures n == |Deref()| && n <= Capacity()
    {
      len
    }

    function IsEmpty(): (r: bool)
      reads this, buffer
      requires Valid()
      ensures r <==> Deref() == []
    {
      len == 0
    }

    /** The size of the backing storage, which bounds the length. */
    function Capacity(): (n: nat)
      reads this, buffer
      requires Valid()
      ensures len <= n
    {
      buffer.Length
    }

    /** By how many bytes the text can still grow. */
    function ExtraCapacity(): (n: nat)
      reads this, buffer
      requires Valid()
      ensures Len() + n == Capacity()
    {
      Capacity() - len
    }

    /** The unused bytes after the text, into which appends write. */
    function ExtraBytes(): (r: seq<Byte>)
      reads this, buffer
      requires Valid()
      ensures |r| == ExtraCapacity() && Deref() + r == Bytes()
    {
      buffer[len..]
    }

    /** Unchecked change of the length: the caller promises the new prefix
        fits and is well-formed. */
    method SetLen(newLen: nat)
      requires newLen <= buffer.Length && ValidUtf8(buffer[..newLen])
      modifies this
      ensures len == newLen && Valid()
    {
      len := newLen;
    }

    /** Shortens the text to `newLen` bytes. `truncate` asserts both
        conditions and panics when one fails. */
    method Truncate(newLen: nat)
      requires Valid()
      requires newLen <= len
      requires newLen < len ==> StartsWellFormedUtf8Sequence(buffer[newLen])
      modifies this
      ensures Valid() && len == newLen
      ensures Deref() == old(Deref())[..newLen]
    {
      SplitAtBoundary(buffer[..len], newLen);
      assert buffer[..len][..newLen] == buffer[..newLen];
      len := newLen;
    }

    /** Appends the encoding of `c` when it fits; otherwise fails with the
        length it would have needed and the capacity, changing nothing. */
    method Push(c: Scalar) returns (r: Result<(), Error>)
      requires Valid()
      modifies this, buffer
      ensures Valid()
      ensures var n := EncodedLength(c);
        if old(len) + n <= buffer.Length then
          r == Ok(()) && len == old(len) + n &&
          buffer[..] == old(buffer[..len]) + Encode(c) + old(buffer[len + n..])
        else
          r == Err(InsufficientLength(old(len) + n, buffer.Length)) &&
          len == old(len) && buffer[..] == old(buffer[..])
      ensures r.Ok? ==> Deref() == old(Deref()) + Encode(c)
      ensures r.Err? ==> Deref() == old(Deref())
    {
      var newLen := len + EncodedLength(c);
      if newLen <= Capacity() {
        ghost var text := Deref();
        DecodeEncode(c);
        ConcatValid(text, Encode(c));
        CopyMemory(Encode(c), buffer, len);
        len := newLen;
        assert buffer[..len] == text + Encode(c);
        r := Ok(());
      } else {
        r := Err(InsufficientLength(newLen, Capacity()));
      }
    }

    /** Appends all of `s` when it fits in the extra capacity; otherwise fails
        with the length of `s` and the extra capacity, changing nothing. */
    method PushStr(s: seq<Byte>) returns (r: Result<(), Error>)
      requires Valid() && ValidUtf8(s)
      modifies this, buffer
      ensures Valid()
      ensures if |s| <= old(ExtraCapacity()) then
          r == Ok(()) && len == old(len) + |s| &&
          buffer[..] == old(buffer[..len]) + s + old(buffer[len + |s|..])
        else
          r == Err(InsufficientLength(|s|, old(ExtraCapacity()))) &&
          len == old(len) && buffer[..] == old(buffer[..])
      ensures r.Ok? ==> Deref() == old(Deref()) + s
      ensures r.Err? ==> Deref() == old(Deref())
    {
      if ExtraCapacity() < |s| {
        return Err(InsufficientLength(|s|, ExtraCapacity()));
      }
      ghost var text := Deref();
      ConcatValid(text, s);
      CopyMemory(s, buffer, len);
      len := len + |s|;
      assert buffer[..len] == text + s;
      r := Ok(());
    }

    /** Appends the longest prefix of `s` that fits and ends on a character
        boundary. `Ok` when all of `s` fit; otherwise `Err(n)` with `n` the
        number of bytes pushed, the largest position not past the extra
        capacity at which a sequence of `s` starts. */
    method PushPartialStr(s: seq<Byte>) returns (r: Result<(), nat>)
      requires Valid() && ValidUtf8(s)
      modifies this, buffer
      ensures Valid()
      ensures old(len) <= len && len - old(len) <= |s|
      ensures buffer[..] == old(buffer[..len]) + s[..len - old(len)] + old(buffer[..])[len..]
      ensures Deref() == old(Deref()) + s[..len - old(len)]
      ensures var extra := old(ExtraCapacity());
        if |s| <= extra then
          r == Ok(()) && len == old(len) + |s|
        else
          r.Err? && r.error == len - old(len) &&
          r.error <= extra < r.error + 4 &&
          StartsWellFormedUtf8Sequence(s[r.error]) &&
          forall j :: r.error < j <= extra ==> !StartsWellFormedUtf8Sequence(s[j])
    {
      ghost var oldLen, oldBytes := len, buffer[..];
      var i := ExtraCapacity();
      if i < |s| {
        i := TrimToBoundary(s, i);
        SplitAtBoundary(s, i);
        var pushed := PushStr(s[..i]);
        // `push_partial_str` unwraps this result: the trimmed prefix always fits
        assert pushed.Ok? && len == oldLen + i;
        assert oldBytes[oldLen + i..] == oldBytes[len..];
        r := Err(i);
      } else {
        var pushed := PushStr(s);
        assert pushed.Ok? && len == oldLen + |s|;
        assert s[..len - oldLen] == s;
        assert oldBytes[oldLen + |s|..] == oldBytes[len..];
        r := Ok(());
      }
    }

    /** `PartialEq`: only the first `len` bytes of each buffer take part. */
    function Eq(other: StringWrapper): (r: bool)
      reads this, buffer, other, other.buffer
      requires Valid() && other.Valid()
      ensures r <==> len == other.len && forall i :: 0 <= i < len ==> buffer[i] == other.buffer[i]
    {
      Deref() == other.Deref()
    }

    /** `Ord`: lexicographic order of the logical views, consistent with `Eq`. */
    function Cmp(other: StringWrapper): (r: Ordering)
      reads this, buffer, other, other.buffer
      requires Valid() && other.Valid()
      ensures r == Equal <==> Eq(other)
      ensures r == Less <==> LexLess(Deref(), other.Deref())
    {
      CompareEqual(Deref(), other.Deref());
      CompareLess(Deref(), other.Deref());
      Compare(Deref(), other.Deref())
    }

    /** `PartialOrd`: the order is total, so there is always an answer. */
    function PartialCmp(other: StringWrapper): (r: Option<Ordering>)
      reads this, buffer, other, other.buffer
      requires Valid() && other.Valid()
      ensures r.Some? && r.value == Cmp(other)
    {
      Some(Cmp(other))
    }

    /** `Hash`: the logical view is what is fed to the hasher. */
    function Hash(hasher: seq<Byte> -> int): (h: int)
      reads this, buffer
      requires Valid()
      ensures h == hasher(Bytes()[..Len()])
    {
      hasher(Deref())
    }
  }

  /** `OwnedBuffer::new` for `[u8; N]`: a fresh zero-filled buffer of `n` bytes. */
  method NewOwnedBuffer(n: nat) returns (b: array<Byte>)
    ensures fresh(b) && b.Length == n
    ensures forall i :: 0 <= i < n ==> b[i] == 0
  {
    b := new Byte[n](_ => 0);
  }

  /** `FromStr` over a fresh buffer of `n` bytes: the whole of `s`, or the
      error of `push_str`. */
  method FromStr(n: nat, s: seq<Byte>) returns (r: Result<StringWrapper, Error>)
    requires ValidUtf8(s)
    ensures r.Ok? <==> |s| <= n
    ensures r.Ok? ==> (fresh(r.value) && fresh(r.value.buffer) && r.value.Valid() &&
                       r.value.buffer.Length == n && r.value.Deref() == s)
    ensures r.Err? ==> r.error == InsufficientLength(|s|, n)
  {
    var buffer := NewOwnedBuffer(n);
    var sw := new StringWrapper(buffer);
    var res := sw.PushStr(s);
    match res
    case Ok(_) => r := Ok(sw);
    case Err(e) => r := Err(e);
  }

  /** `from_str_safe` over a fresh buffer of `n` bytes: `None` unless the
      whole of `s` fits. */
  method FromStrSafe(n: nat, s: seq<Byte>) returns (r: Option<StringWrapper>)
    requires ValidUtf8(s)
    ensures r.Some? <==> |s| <= n
    ensures r.Some? ==> (fresh(r.value) && fresh(r.value.buffer) && r.value.Valid() &&
                       r.value.buffer.Length == n && r.value.Deref() == s)
  {
    var buffer := NewOwnedBuffer(n);
    var sw := new StringWrapper(buffer);
    var res := sw.PushPartialStr(s);
    match res
    case Ok(_) => r := Some(sw);
    case Err(_) => r := None;
  }

  /** Instances whose first `len` bytes agree are equal, compare `Equal` and
      hash alike, whatever their capacities and stale bytes. */
  lemma StaleBytesIgnored(a: StringWrapper, b: StringWrapper, hasher: seq<Byte> -> int)
    requires a.Valid() && b.Valid()
    requires a.len == b.len && forall i :: 0 <= i < a.len ==> a.buffer[i] == b.buffer[i]
    ensures a.Eq(b) && a.Cmp(b) == Equal && a.Hash(hasher) == b.Hash(hasher)
  {
    assert a.Deref() == b.Deref();
  }

  /** Equal instances hash alike, for every hasher. */
  lemma HashConsistent(a: StringWrapper, b: StringWrapper, hasher: seq<Byte> -> int)
    requires a.Valid() && b.Valid() && a.Eq(b)
    ensures a.Hash(hasher) == b.Hash(hasher)
  {
  }

  /** `Cmp` is antisymmetric. */
  lemma CmpReverse(a: StringWrapper, b: StringWrapper)
    requires a.Valid() && b.Valid()
    ensures b.Cmp(a) == a.Cmp(b).Reverse()
  {
    CompareReverse(a.Deref(), b.Deref());
  }

  /** `Cmp` is transitive. */
  lemma CmpTransitive(a: StringWrapper, b: StringWrapper, c: StringWrapper)
    requires a.Valid() && b.Valid() && c.Valid()
    requires a.Cmp(b) == Less && b.Cmp(c) == Less
    ensures a.Cmp(c) == Less
  {
    CompareTransitive(a.Deref(), b.Deref(), c.Deref());
  }
}
