# string_wrapper in Dafny

This project models `StringWrapper<T>` from the Rust crate `string_wrapper`. A
`StringWrapper` is a string with a fixed capacity. It stores its text in a
byte buffer that the caller hands over and keeps a length `len` next to it. Bytes
`[0, len)` of the buffer are the text. They are always well-formed UTF-8. The
bytes from `len` onward are stale: no view of the string reads them, and
`truncate` leaves them in the buffer.

The project has five modules:

- `Utf8` (`utf8.dfy`) builds the text model:
  - a byte is an `int` in `0..255` (`Byte`);
  - a Rust `char` is a Unicode scalar value (`Scalar`);
  - the encoder `Encode` follows section 3 of RFC 3629;
  - the predicate `ValidUtf8` follows the `UTF8-octets` syntax in section 4 of RFC 3629, which forbids overlong forms, surrogates and values past U+10FFFF, as Rust's `str` does;
  - it includes the decoder and proves the round trips both ways.
  It also proves the boundary facts the crate relies on:
  - any prefix or suffix cut at a byte that starts a sequence is itself well-formed;
  - a start byte is at most three bytes back from any position.
- `Comparison` (`comparison.dfy`) defines the byte-wise lexicographic order that Rust's `str` uses for `Ord`. It proves that this order is antisymmetric and transitive. It also proves that it agrees with an independent "first differing byte" definition.
- `Results` (`results.dfy`) holds the `Option` and `Result` types.
- `StringWrappers` (`string_wrapper.dfy`) implements the string itself. `StringWrapper` is a class with a mutable field `len` and a fixed `array<Byte>` for the buffer. `Valid()` is the type invariant: `len <= capacity` and the prefix is well-formed UTF-8. Every mutator keeps that invariant. Every mutator also states its whole new buffer: the bytes before the old length and after the newly written bytes keep their old values.
  - The trimming loop of `push_partial_str` is the method `TrimToBoundary`.
  - `copy_memory` is `CopyMemory`, an element-wise copy into the array.
  - `from_str` and `from_str_safe` take the capacity `N` of the `[u8; N]` buffer as a parameter `n`.
- `Scenarios` (`scenarios.dfy`) replays the crate's unit tests and doctests. Each is a client method that uses only the contracts above:
  - `it_works` runs in stages: `ItWorksNew`, `ItWorksAppend`, `ItWorksHello`, `ItWorksTruncate`, `ItWorksStar`, `ItWorksFull`, composed by `ItWorks`. `ItWorks` includes the raw buffer bytes `a\xC3\xA9~~~_ell` with the stale `ell`.
  - `eq` and `eq_only_to_length` are `EqOnlyToLength`.
  - `ord` is `Ord`.
  - `ord_only_to_length` and `hash_only_to_length` are `OrdOnlyToLength`.
  - `from_str` and the `from_str_safe` doctests are `FromStrExamples`.

Where the doc comments and the code disagree, the model follows the code:

- `push_str` returns `Err(InsufficientLength{..})` when the text does not fit. The comment at lib.rs:170 says it panics.
- The error of `push` carries `expected = len + len_utf8(c)` and `actual = capacity`. The error of `push_str` instead carries `expected = |s|` and `actual = extra_capacity`.
- `push_partial_str`'s `Err(n)` carries the number of bytes pushed.
- `from_str_safe` pushes with `push_partial_str` and returns `None` whenever that push is partial. It therefore succeeds exactly when the whole input fits. It never returns a shortened string.

## Model

| member | source | states |
|---|---|---|
| Utf8.StartsWellFormedUtf8Sequence | lib.rs:245-248 | a byte starts a sequence exactly when it is not a continuation byte `10xxxxxx`, that is, when it is below 128 or at least 192 |
| Utf8.EncodedLength | lib.rs:154 | `len_utf8` is between 1 and 4; it is 1 exactly for ASCII and 4 exactly for scalars from U+10000 |
| Utf8.Encode | lib.rs:156-157 | the encoding of a scalar is `EncodedLength` bytes long |
| Utf8.SequenceLength | lib.rs:271 | the length of the well-formed sequence that opens a byte string (0 when none does) fits in the string, is at most 4, opens with a start byte and then has only continuation bytes |
| Utf8.DecodeSequence | lib.rs:271 | the scalar a well-formed sequence decodes to re-encodes to a sequence of the same length |
| Utf8.DecodeEncode | lib.rs:156-157 | the encoding of every scalar is well-formed UTF-8, is read back as exactly one sequence and decodes to the same scalar |
| Utf8.EncodeDecode | lib.rs:271 | re-encoding the scalar decoded from a well-formed sequence gives back the same bytes |
| Utf8.ConcatValid | lib.rs:175-176 | appending well-formed UTF-8 to well-formed UTF-8 gives well-formed UTF-8 |
| Utf8.EncodeStringValid | lib.rs:268-271 | encoding any sequence of scalars gives well-formed UTF-8 |
| Utf8.DecodeEncodeString | lib.rs:268-271 | decoding the encoding of a sequence of scalars gives the same scalars |
| Utf8.EncodeDecodeString | lib.rs:268-271 | re-encoding the decoding of well-formed UTF-8 gives back the same bytes |
| Utf8.PrefixValid | lib.rs:195 | cutting well-formed UTF-8 before a start byte leaves a well-formed prefix |
| Utf8.SuffixValid | lib.rs:122-130 | cutting well-formed UTF-8 before a start byte leaves a well-formed suffix |
| Utf8.SplitAtBoundary | lib.rs:122-130 | both halves of a cut at a start byte (or at the end) are well-formed |
| Utf8.CharBoundary | lib.rs:121-127 | inside well-formed UTF-8, a position is a character boundary (both halves well-formed) exactly when its byte starts a sequence |
| Utf8.NearbyStart | lib.rs:190-191 | in well-formed UTF-8, some byte at most three positions back from any position starts a sequence |
| Comparison.Compare | lib.rs:332-336 | the byte-wise order of `str` that `cmp` delegates to: `Equal` only between strings of the same length, and a proper prefix always sorts first |
| Comparison.CompareEqual | lib.rs:332-336 | byte-wise comparison answers `Equal` exactly on equal strings |
| Comparison.CompareReverse | lib.rs:332-336 | swapping the operands reverses the answer |
| Comparison.CompareTransitive | lib.rs:332-336 | `Less` is transitive |
| Comparison.CompareLess | lib.rs:332-336 | comparison answers `Less` exactly when the left string is a proper prefix of the right one or is smaller at the first byte where they differ |
| StringWrappers.CopyMemory | lib.rs:254-262 | with room enough at offset `start`, the destination afterwards holds its old bytes before `start`, then exactly `src`, then its old bytes after that |
| StringWrappers.TrimToBoundary | lib.rs:188-195 | from a position inside well-formed text, the loop stops on a start byte, steps back at most three bytes, never goes below 0 and stops at the first start byte it meets |
| StringWrappers.StringWrapper.constructor | lib.rs:67-70 | `new` takes over the buffer (moved in: a fresh array holding the caller's bytes), has length 0, is valid and has the empty text whatever the buffer holds |
| StringWrappers.StringWrapper.FromRawParts | lib.rs:72-81 | under the caller's promise (length fits, prefix well-formed), takes over the buffer as `new` does and is valid with exactly that prefix as its text |
| StringWrappers.StringWrapper.IntoBuffer | lib.rs:83-86 | returns the storage as a fresh copy (the test buffers are `Copy`) holding every byte of the buffer, its first `len` bytes being the text |
| StringWrappers.StringWrapper.Bytes | lib.rs:88-91 | the whole storage is as long as the capacity and begins with the text |
| StringWrappers.StringWrapper.Deref | lib.rs:264-272 | the text is well-formed UTF-8 of `len` bytes |
| StringWrappers.StringWrapper.Len | lib.rs:101-104 | the length is the length of the text and never exceeds the capacity |
| StringWrappers.StringWrapper.IsEmpty | lib.rs:106-109 | true exactly when the text is empty |
| StringWrappers.StringWrapper.Capacity | lib.rs:132-135 | the capacity bounds the length |
| StringWrappers.StringWrapper.ExtraCapacity | lib.rs:137-140 | length plus extra capacity is the capacity |
| StringWrappers.StringWrapper.ExtraBytes | lib.rs:142-145 | the unused bytes number exactly the extra capacity, and the text followed by them is the whole storage |
| StringWrappers.StringWrapper.SetLen | lib.rs:111-116 | under the caller's promise that the new prefix fits and is well-formed, sets the length and leaves the string valid |
| StringWrappers.StringWrapper.Truncate | lib.rs:118-130 | requires the new length not to exceed the old and, when shorter, to fall on a start byte; the string stays valid, the text becomes the old text's prefix, and the buffer is untouched |
| StringWrappers.StringWrapper.Push | lib.rs:147-166 | when `len + len_utf8(c)` fits the capacity, returns `Ok`, grows `len` by the encoded length and writes exactly `Encode(c)` at the old length, leaving every other byte as it was; otherwise returns `InsufficientLength(len + len_utf8(c), capacity)` and changes nothing; the string stays valid |
| StringWrappers.StringWrapper.PushStr | lib.rs:168-178 | when the text fits the extra capacity, returns `Ok`, grows `len` by its length and writes exactly it at the old length, leaving every other byte as it was; otherwise returns `InsufficientLength(|s|, extra_capacity)` and changes nothing; the string stays valid |
| StringWrappers.StringWrapper.PushPartialStr | lib.rs:180-201 | appends a prefix of `s`, leaving every other byte as it was; when all of `s` fits it appends all of it and returns `Ok`; otherwise it returns `Err(n)` with `n` the bytes pushed, where `n` is the largest position not past the extra capacity at which a sequence starts, so `extra_capacity - 3 <= n <= extra_capacity`; the string stays valid, so the inner `push_str(..).unwrap()` cannot fail |
| StringWrappers.StringWrapper.Eq | lib.rs:311-315 | two strings are equal exactly when their lengths agree and their first `len` bytes agree, whatever their stale bytes and capacities |
| StringWrappers.StringWrapper.Cmp | lib.rs:332-336 | `Equal` exactly when `Eq` holds; `Less` exactly when the text is lexicographically smaller |
| StringWrappers.StringWrapper.Hash | lib.rs:326-330 | the hasher is fed exactly the first `len` bytes of the storage, so stale bytes and the capacity never reach it |
| StringWrappers.StringWrapper.PartialCmp | lib.rs:320-324 | always `Some`, carrying the answer of `Cmp` |
| StringWrappers.NewOwnedBuffer | lib.rs:429-431 | `OwnedBuffer::new` for `[u8; N]` creates a fresh buffer of `N` zero bytes |
| StringWrappers.FromStr | lib.rs:204-212 | succeeds exactly when the text fits in `n` bytes, giving a fresh valid string of capacity `n` whose text is the input; otherwise the error is `InsufficientLength(|s|, n)` |
| StringWrappers.FromStrSafe | lib.rs:215-242 | returns `Some` exactly when the text fits in `n` bytes, giving a fresh valid string of capacity `n` whose text is the whole input; otherwise `None` |
| StringWrappers.StaleBytesIgnored | lib.rs:311-336 | strings whose first `len` bytes agree are `Eq`, compare `Equal` and hash alike, whatever their stale bytes |
| StringWrappers.HashConsistent | lib.rs:326-330 | equal strings hash alike for every hasher, because only the text is fed to it |
| StringWrappers.CmpReverse | lib.rs:332-336 | `Cmp` is antisymmetric |
| StringWrappers.CmpTransitive | lib.rs:332-336 | `Cmp`'s `Less` is transitive |
| Scenarios.ItWorksNew | lib.rs:543-558 | after `new` over ten zero bytes and `push_str("a")`, the text is "a" and the capacity 10 |
| Scenarios.ItWorksAppend | lib.rs:560-570 | after `push('é')` and `push_partial_str("~~~")`, both asserted to return `Ok`, the text is "aé~~~" |
| Scenarios.ItWorksHello | lib.rs:572-576 | after `push_partial_str("hello")`, whose result is asserted to be `Err(4)`, the text is "aé~~~hell" and fills the capacity |
| Scenarios.ItWorksTruncate | lib.rs:578-582 | `truncate(6)` gives "aé~~~" and leaves "hell" in the buffer |
| Scenarios.ItWorksStar | lib.rs:584-588 | after `push_partial_str("_🌠")`, whose result is asserted to be `Err(1)`, the text is "aé~~~_" and the buffer still ends in the stale "ell" |
| Scenarios.ItWorksFull | lib.rs:590-611 | after `push('🌠')`, asserted to fail with `InsufficientLength(11, 10)` and change nothing, and `push_partial_str("ô!?")`, asserted to return `Err(3)`, the text is "aé~~~_ô!" |
| Scenarios.ItWorks | lib.rs:541-612 | the whole `it_works` run: the buffer returned by `into_buffer` holds `a\xC3\xA9~~~_ell` with the stale `ell`, and the final text is "aé~~~_ô!" |
| Scenarios.EqOnlyToLength | lib.rs:469-489 | a string equals itself, "foo" equals "foo" over the same storage and differs from "bar", and empty strings over `aaaaa` and `bbbbb` are equal |
| Scenarios.OrdOnlyToLength | lib.rs:501-531 | strings over `000` and `111` compare `Equal`, with `Some(Equal)` from `partial_cmp`, and hash alike, both empty and after "aa" is pushed to each; the hash checks of `hash_only_to_length` (lib.rs:522-531) are replayed on these strings rather than on its 64-byte buffers |
| Scenarios.Ord | lib.rs:491-499 | "a" sorts before "b": `cmp` gives `Less` and `partial_cmp` gives `Some(Less)` |
| Scenarios.FromStrExamples | lib.rs:221-233 | `from_str_safe` over three bytes gives "foo" for "foo" and `None` for "foobar" (the doctests); it also checks that `from_str("OMG!")` equals a string built by `push_str("OMG!")` (the test at lib.rs:533-539) |
| Scenarios.NewWith | lib.rs:472-474 | `new` over a buffer, then `push_str` of a text that fits, gives that text followed by the rest of the buffer's old bytes |

## Left out

- Serde support (lib.rs:349-381) is glue over an external serialization library. Its only decision is the `None` of `from_str_safe`, which `FromStrSafe` covers.
- The `stack_format!` macro and the `fmt::Write`, `Display` and `Debug` impls (lib.rs:293-309, 338-347, 433-444) rely on Rust's formatting machinery, which is not part of this model.
- `push` writes the character with `write!` (lib.rs:157). The model writes `Encode(c)` instead, using the encoder of section 3 of RFC 3629.
- `buffer_mut`, `deref_mut` and `Borrow` (lib.rs:93-99, 275-291) hand out references to the storage. They are not modelled.
- `extra_bytes_mut` (lib.rs:142-145) is a mutable slice. The model has the read-only view `ExtraBytes`. Writing through the slice is `CopyMemory` at offset `len`, which is how `push`, `push_str` and `push_partial_str` use it.
- The `Buffer` and `OwnedBuffer` traits and their impls for `&mut T`, `Box<T>`, `Vec<u8>`, `[u8]` and `[u8; N]` (lib.rs:28-49, 383-431) are replaced by one fixed `array<Byte>`. The "same slice on every call" contract holds trivially for one array. `OwnedBuffer::new` is `NewOwnedBuffer`.
- `ptr::copy_nonoverlapping` in `copy_memory` is an element-wise copy. The assert in `copy_memory` on the destination length is a `requires`.
- `usize` arithmetic is unbounded (`nat`). Lengths are bounded by the buffer's length, so none of the sums in `push`, `push_str` and `extra_capacity` can wrap.
- Exclusive ownership of strings: a `StringWrapper` is a Dafny object reference. Two variables can therefore name one string, and a copy made with the derived `Clone` or `Copy` (lib.rs:19) would share its state, whereas Rust duplicates `len` and the buffer. The buffer arrays themselves are not shared: `new` and `from_raw_parts` copy the caller's array into a fresh one, as a move leaves the caller nothing to write to, and `IntoBuffer` returns a fresh copy. `Default` and the `traits` test (lib.rs:460-467) are not modelled.
- `Hash`: the model feeds the text to a hasher given as a function of the bytes. Concrete `DefaultHasher` values are not part of the model, so the inequality asserted in `hash_only_to_length` (lib.rs:528) is not modelled.
- I/O, panics and Rust's `&str` type become `requires` clauses: texts passed in are well-formed UTF-8 (`ValidUtf8`), and the assertions of `truncate` and `copy_memory` are preconditions.
