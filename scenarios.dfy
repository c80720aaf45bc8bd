/** Client programs that replay the unit tests and doctests of `lib.rs`
    against the contracts of `StringWrappers` alone. */
module Scenarios {
  import opened Utf8
  import opened Comparison
  import opened Results
  import opened StringWrappers

  /** The text "aé~~~" of the `it_works` test. */
  function AeTildes(): seq<Byte> {
    [0x61, 0xC3, 0xA9, 0x7E, 0x7E, 0x7E]
  }

  /** The first steps of the `it_works` test: an empty string over ten
      zero bytes, then "a" appended. */
  method ItWorksNew() returns (s: StringWrapper)
    ensures fresh(s) && fresh(s.buffer) && s.Valid()
    ensures s.Capacity() == 10 && s.Deref() == [0x61]
  {
    var storage := NewOwnedBuffer(10);
    s := new StringWrapper(storage);
    assert s.Deref() == [] && s.ExtraCapacity() == 10;
    var a := [0x61];
    AsciiValid(a);
    var r := s.PushStr(a);
    assert r == Ok(());
  }

  /** Then 'é' (U+00E9, two bytes) and "~~~" are appended. */
  method ItWorksAppend(s: StringWrapper)
    requires s.Valid() && s.Capacity() == 10 && s.Deref() == [0x61]
    modifies s, s.buffer
    ensures s.Valid() && s.Deref() == AeTildes()
  {
    assert Encode(0xE9) == [0xC3, 0xA9];
    var r := s.Push(0xE9);
    assert r == Ok(());
    assert s.Deref() == [0x61, 0xC3, 0xA9] && s.ExtraCapacity() == 7;

    var tildes := [0x7E, 0x7E, 0x7E];
    AsciiValid(tildes);
    var p := s.PushPartialStr(tildes);
    assert p == Ok(());
  }

  /** "hello" only partly fits: four of its bytes fill the buffer. */
  method ItWorksHello(s: StringWrapper)
    requires s.Valid() && s.Capacity() == 10 && s.Deref() == AeTildes()
    modifies s, s.buffer
    ensures s.Valid() && s.Len() == s.Capacity()
    ensures s.Deref() == AeTildes() + [0x68, 0x65, 0x6C, 0x6C]
  {
    var hell := [0x68, 0x65, 0x6C, 0x6C];
    var hello := hell + [0x6F];
    AsciiValid(hello);
    var p := s.PushPartialStr(hello);
    assert p.Err?;
    assert p.error == 4 by {
      if p.error < 4 {
        assert StartsWellFormedUtf8Sequence(hello[4]);
      }
    }
    assert hello[..4] == hell;
  }

  /** Truncating back to "aé~~~" leaves "hell" behind in the buffer. */
  method ItWorksTruncate(s: StringWrapper)
    requires s.Valid() && s.Len() == s.Capacity()
    requires s.Deref() == AeTildes() + [0x68, 0x65, 0x6C, 0x6C]
    modifies s
    ensures s.Valid() && s.Deref() == AeTildes()
    ensures s.buffer[..] == AeTildes() + [0x68, 0x65, 0x6C, 0x6C]
  {
    assert s.buffer[..] == s.Deref();
    s.Truncate(6);
  }

  /** "_🌠" then fits only up to its four-byte sequence, and "ell" stays
      stale in the buffer. */
  method ItWorksStar(s: StringWrapper)
    requires s.Valid() && s.Deref() == AeTildes()
    requires s.buffer[..] == AeTildes() + [0x68, 0x65, 0x6C, 0x6C]
    modifies s, s.buffer
    ensures s.Valid() && s.Deref() == AeTildes() + [0x5F]
    ensures s.buffer[..] == AeTildes() + [0x5F, 0x65, 0x6C, 0x6C]
  {
    ghost var stale := s.buffer[..][7..];
    assert stale == [0x65, 0x6C, 0x6C];

    // "_🌠": '_' then U+1F320, four bytes
    assert Encode(0x1F320) == [0xF0, 0x9F, 0x8C, 0xA0];
    var star := [0x5F] + Encode(0x1F320);
    AsciiValid([0x5F]);
    DecodeEncode(0x1F320);
    ConcatValid([0x5F], Encode(0x1F320));
    var p := s.PushPartialStr(star);
    assert p == Err(1);
    assert s.Len() == 7;
  }

  /** '🌠' no longer fits; of "ô!?" only "ô!" does. */
  method ItWorksFull(s: StringWrapper)
    requires s.Valid() && s.Capacity() == 10 && s.Deref() == AeTildes() + [0x5F]
    modifies s, s.buffer
    ensures s.Valid() && s.Deref() == AeTildes() + [0x5F, 0xC3, 0xB4, 0x21]
  {
    var r := s.Push(0x1F320);
    assert r == Err(InsufficientLength(11, 10));
    assert s.Deref() == AeTildes() + [0x5F] && s.ExtraCapacity() == 3;

    // "ô!?": U+00F4 is two bytes
    assert Encode(0xF4) == [0xC3, 0xB4];
    var rest := Encode(0xF4) + [0x21, 0x3F];
    DecodeEncode(0xF4);
    AsciiValid([0x21, 0x3F]);
    ConcatValid(Encode(0xF4), [0x21, 0x3F]);
    var p := s.PushPartialStr(rest);
    assert p == Err(3);
    assert s.Len() == 10 && s.ExtraCapacity() == 0;
  }

  /** The whole `it_works` test: the raw buffer it inspects, stale "ell"
      included, and the final text. */
  method ItWorks() returns (raw: seq<Byte>, text: seq<Byte>)
    ensures raw == [0x61, 0xC3, 0xA9, 0x7E, 0x7E, 0x7E, 0x5F, 0x65, 0x6C, 0x6C]
    ensures text == [0x61, 0xC3, 0xA9, 0x7E, 0x7E, 0x7E, 0x5F, 0xC3, 0xB4, 0x21]
  {
    assert AeTildes() + [0x5F, 0x65, 0x6C, 0x6C] == [0x61, 0xC3, 0xA9, 0x7E, 0x7E, 0x7E, 0x5F, 0x65, 0x6C, 0x6C];
    assert AeTildes() + [0x5F, 0xC3, 0xB4, 0x21] == [0x61, 0xC3, 0xA9, 0x7E, 0x7E, 0x7E, 0x5F, 0xC3, 0xB4, 0x21];
    var s := ItWorksNew();
    ItWorksAppend(s);
    ItWorksHello(s);
    ItWorksTruncate(s);
    ItWorksStar(s);
    var storage := s.IntoBuffer();
    raw := storage[..];
    ItWorksFull(s);
    text := s.Deref();
  }

  /** A string over a fresh buffer first holding `stale`, with `text`
      pushed: `StringWrapper::new(*stale)` followed by `push_str(text)`. */
  method NewWith(stale: seq<Byte>, text: seq<Byte>) returns (s: StringWrapper)
    requires ValidUtf8(text) && |text| <= |stale|
    ensures fresh(s) && fresh(s.buffer) && s.Valid() && s.Deref() == text
    ensures s.buffer[..] == text + stale[|text|..]
  {
    var storage := new Byte[|stale|](i requires 0 <= i < |stale| => stale[i]);
    assert storage[..] == stale;
    s := new StringWrapper(storage);
    var r := s.PushStr(text);
  }

  /** The `eq` and `eq_only_to_length` tests: a string equals itself,
      "foo" equals "foo" and differs from "bar", and two empty strings over
      different bytes are equal. */
  method EqOnlyToLength() returns (reflexive: bool, same: bool, different: bool, staleOnly: bool)
    ensures reflexive && same && !different && staleOnly
  {
    var zeros, foo, bar := [0x30, 0x30, 0x30], [0x66, 0x6F, 0x6F], [0x62, 0x61, 0x72];
    AsciiValid(foo);
    AsciiValid(bar);
    var empty := NewWith(zeros, []);
    reflexive := empty.Eq(empty);
    var s := NewWith(zeros, foo);
    var s2 := NewWith(zeros, foo);
    same := s.Eq(s2);
    var s3 := NewWith(zeros, bar);
    assert s3.Deref()[0] != s.Deref()[0];
    different := s.Eq(s3);

    var a := NewWith([0x61, 0x61, 0x61, 0x61, 0x61], []);
    var b := NewWith([0x62, 0x62, 0x62, 0x62, 0x62], []);
    staleOnly := a.Eq(b);
  }

  /** The `ord_only_to_length` and `hash_only_to_length` tests: strings over
      different stale bytes compare `Equal` and hash alike, both empty and
      after "aa" is pushed to each. */
  method OrdOnlyToLength(hasher: seq<Byte> -> int)
    returns (emptyCmp: Ordering, emptyPartial: Option<Ordering>, emptySameHash: bool,
             aaCmp: Ordering, aaPartial: Option<Ordering>, aaSameHash: bool)
    ensures emptyCmp == Equal && emptyPartial == Some(Equal) && emptySameHash
    ensures aaCmp == Equal && aaPartial == Some(Equal) && aaSameHash
  {
    var aa := [0x61, 0x61];
    AsciiValid(aa);
    var s := NewWith([0x30, 0x30, 0x30], []);
    var s2 := NewWith([0x31, 0x31, 0x31], []);
    emptyCmp, emptyPartial := s.Cmp(s2), s.PartialCmp(s2);
    emptySameHash := s.Hash(hasher) == s2.Hash(hasher);
    s := NewWith([0x30, 0x30, 0x30], aa);
    s2 := NewWith([0x31, 0x31, 0x31], aa);
    aaCmp, aaPartial := s.Cmp(s2), s.PartialCmp(s2);
    aaSameHash := s.Hash(hasher) == s2.Hash(hasher);
  }

  /** The `ord` test: "a" sorts before "b". */
  method Ord() returns (cmp: Ordering, partial: Option<Ordering>)
    ensures cmp == Less && partial == Some(Less)
  {
    AsciiValid([0x61]);
    AsciiValid([0x62]);
    var t := NewWith([0x30, 0x30, 0x30], [0x61]);
    var t2 := NewWith([0x30, 0x30, 0x30], [0x62]);
    assert LexLess(t.Deref(), t2.Deref()) by {
      assert t.Deref()[..0] == t2.Deref()[..0];
    }
    cmp, partial := t.Cmp(t2), t.PartialCmp(t2);
  }

  /** The `from_str` test and the two doctests of `from_str_safe`: parsing
      "OMG!" equals pushing it, "foo" fits three bytes, "foobar" does not. */
  method FromStrExamples() returns (parsedAsPushed: bool, fits: Option<seq<Byte>>, tooLong: bool)
    ensures parsedAsPushed && fits == Some([0x66, 0x6F, 0x6F]) && tooLong
  {
    var omg := [0x4F, 0x4D, 0x47, 0x21];
    AsciiValid(omg);
    var parsed := FromStr(64, omg);
    var s2 := NewWith(seq(64, _ => 0), omg);
    parsedAsPushed := parsed.Ok? && parsed.value.Eq(s2);

    var foo, foobar := [0x66, 0x6F, 0x6F], [0x66, 0x6F, 0x6F, 0x62, 0x61, 0x72];
    AsciiValid(foo);
    AsciiValid(foobar);
    var safe := FromStrSafe(3, foo);
    fits := if safe.Some? then Some(safe.value.Deref()) else None;
    var safeLong := FromStrSafe(3, foobar);
    tooLong := safeLong == None;
  }
}
