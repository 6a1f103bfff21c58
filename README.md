# WebVTT sample entries and CENC sample decryption, modelled in Dafny

This project models two parts of an ISOBMFF/MP4 library:

- **The WebVTT boxes of `mp4/wvtt.go`.** These are the ISO/IEC 14496-30 boxes that carry WebVTT subtitles in MP4:
  - the `wvtt` sample entry;
  - the `vttc` cue container;
  - the leaf boxes `vttC`, `vlab`, `vtte`, `vsid`, `ctim`, `iden`, `sttg`, `payl` and `vtta`.

  Each box can be decoded from bytes, sized and encoded back to bytes. A container keeps every child in order. It also keeps a typed field for each child kind the format names, and that field points at the last child of that kind that was added.
- **The decrypt-cenc example, `examples/decrypt-cenc/main.go`.** It decrypts the samples of a fragment protected with the `cenc` scheme of ISO/IEC 23001-7:
  - the hex key is checked;
  - the `traf` and `trex` of the track are looked up;
  - an 8-byte IV becomes a 16-byte counter block;
  - per sample, clear bytes are copied and the protected spans are decrypted in counter mode.

Modules, one per file:

| module | file | contents |
|---|---|---|
| `Results` | `results.dfy` | `Option` and `Result` |
| `Bytes` | `bytes.dfy` | fixed-width integer subset types, big-endian encoding |
| `BoxHeaders` | `boxheader.dfy` | the 8-byte box header every box starts with; the box faults |
| `VttBoxes` | `vttboxes.dfy` | boxes as values, the leaf decoders, decoding a box from a stream and a container's children |
| `Wvtt` | `wvtt.dfy` | the `WvttBox` and `VttcBox` classes, with fields updated in place; their decoders; their round trips |
| `Cenc` | `cenc.dfy` | key parsing, track lookups, IV normalisation, sample and fragment decryption |

### The model's main choices

- **Containers are classes.** The Go code builds `WvttBox` and `VttcBox` by calling `AddChild` repeatedly, and each call updates the box's fields. So both are classes with a `children: seq<Box>` field and one `Option<Box>` field per named child kind:
  - `Valid()` says each typed field is the last child of its kind;
  - `AddChild` preserves `Valid()`;
  - `Size` and `Encode` of the wvtt box are the loops the source runs.
- **Leaf boxes are values.** They are the `Box` datatype, and the seven text-carrying leaves share one constructor, `Text(kind, text)`.
- **Decryption is written as the code runs.**
  - `DecryptSubsamples` is the subsample loop of `decryptSample`.
  - Its specification is the function `Walk`.
  - The counter-mode cipher `mp4.DecryptSampleCTR` is foreign code, so it is the parameter `ctr`.
  - Lemmas that need the cipher to keep lengths take `LengthPreserving(ctr)` as a hypothesis.

### Where the code differs from ISO/IEC 23001-7 and the framework's contract

The model follows the code in each of these cases.

- **The keystream restarts for every protected span.** `decryptSample` calls the cipher with the same `iv` for every protected span (`examples/decrypt-cenc/main.go:235`). The `cenc` scheme of ISO/IEC 23001-7 continues the counter across the protected spans of a sample instead. `Walk` and `SpanDecrypted` state the behaviour as written: each span is decrypted on its own with the sample's IV. A sample with more than one protected span therefore differs from what the standard expects.
- **IVs other than 8 bytes are passed through.** An IV of 8 bytes is extended with 8 zero bytes. An IV of any other length, 16 or not, is passed to the cipher unchanged: the code has no "invalid IV length" error. See `NormalizeIV`.
- **The subsample sizes are never checked against the sample size.** In ISO/IEC 23001-7, the clear and protected byte counts of a sample's subsamples add up to the sample's size.
  - A sum smaller than the data: the trailing bytes are dropped from the output, and `SampleDecryptionBytes` states the output length as the subsample total.
  - A sum larger than the data: the Go slice expressions at `examples/decrypt-cenc/main.go:233` and `:235` are bounded by the capacity of the sample's buffer, not its length. That capacity is set by `GetFullSamples`, which is not part of this model. Depending on it, Go either panics or reads bytes past the sample's end. `SampleInRange` excludes the case.
- **A wvtt box stops at end of stream without an error.** If its child loop reaches end of stream before the declared end, that counts as success (`mp4/wvtt.go:66-68`); `WvttChildrenStopsEarly` states it. The framework's documented contract for its generic container decoder treats the same situation as a malformed container, and `ContainerChildren` follows that contract.

## Model

| member | source | states |
|---|---|---|
| BoxHeaders.EncodeHeader | mp4/wvtt.go:101-104 | The header is 8 bytes; for a size below 2^32, its first four bytes read back big-endian as that size. |
| BoxHeaders.DecodeHeader | mp4/wvtt.go:65-71 | End of stream is reported exactly when no bytes are left. A parsed header is 8 or 16 bytes long, never longer than the declared box size, and present in the input. |
| BoxHeaders.HeaderRoundTrip | mp4/wvtt.go:100-104 | A header written for a type and a 32-bit size, followed by any bytes, reads back as that same type and size with an 8-byte header. |
| VttBoxes.TextKindOfCode | mp4/wvtt.go:190-221 | Each text-carrying leaf kind is recognised again from its own four-character code. |
| VttBoxes.Box.Type | mp4/wvtt.go:161-163 | Every box but an opaque one has a type the registry knows, and a text leaf's type is recognised again as its own kind. The same holds for the other `Type()` methods of the file, at lines 240-242, 311-313 and 354-356 among others. |
| VttBoxes.Box.Size | mp4/wvtt.go:250-252 | Every box is at least as large as its 8-byte header. |
| VttBoxes.Box.Payload | mp4/wvtt.go:359-361 | The payload is exactly the box size minus the header. |
| VttBoxes.Box.Encode | mp4/wvtt.go:364-373 | Encoding writes exactly `Size()` bytes, and the bytes after the header are the payload. |
| VttBoxes.DecodeText | mp4/wvtt.go:195-202 | A text leaf keeps all of its payload as its text, so its size is the header plus the payload length, and its type is its kind's code. |
| VttBoxes.DecodeVtte | mp4/wvtt.go:245-247 | A vtte box is 8 bytes and has an empty payload, whatever its input carried. |
| VttBoxes.DecodeVsid | mp4/wvtt.go:343-351 | A vsid box is 12 bytes. Its source ID is read from the first four payload bytes. A shorter payload is padded with zero bytes, as a slice of the read buffer's spare capacity gives them. |
| VttBoxes.DecodeLeaf | mp4/wvtt.go:343-351 | A decoded leaf has the type it was decoded under. A type the registry does not know becomes an opaque box that keeps its payload. |
| VttBoxes.ShortVsidPadded | mp4/wvtt.go:343-351 | A 10-byte vsid box holding only the id bytes 1, 2 decodes to source ID 0x01020000 and consumes its 10 bytes. |
| VttBoxes.DecodeBox | mp4/wvtt.go:65-71 | End of stream is reported exactly when no bytes remain. A decoded box consumed at least its header and no more than the input. |
| VttBoxes.DecodePayload | mp4/wvtt.go:298-308 | A box decoded from a header consumes exactly the header's declared size. |
| VttBoxes.ContainerChildren | mp4/wvtt.go:298-302 | When the children of a container decode, their sizes add up from the first child's position to exactly the container's declared end. |
| VttBoxes.LeafRoundTrip | mp4/wvtt.go:343-373 | Decoding the payload of any well-formed leaf under its own type gives that leaf back. |
| VttBoxes.DecodeEncode | mp4/wvtt.go:171-178 | A well-formed box, container or leaf, encoded and followed by any bytes, decodes to itself and consumes exactly its size. |
| VttBoxes.ChildrenDecodeEncode | mp4/wvtt.go:326-328 | The concatenated encodings of well-formed children decode back to the same children, in order, ending at their total size. |
| VttBoxes.TextTakesWholePayload | mp4/wvtt.go:526-535 | A text box decodes its whole declared payload as its text and consumes its declared size. |
| VttBoxes.VtteIgnoresPayload | mp4/wvtt.go:245-252 | A vtte box with any declared size consumes that size, yet re-encodes as 8 bytes. |
| Wvtt.LastInSlotSpec | mp4/wvtt.go:31-44 | A typed field holds a child of its own kind that is among the children. It is empty exactly when no child has that kind. |
| Wvtt.LastInSlotIsLast | mp4/wvtt.go:31-44 | If no later child has its kind, the child at index i is the one the typed field holds. |
| Wvtt.LastInSlotAppend | mp4/wvtt.go:31-44 | Appending a child replaces the field of that child's kind and leaves every other field as it was. |
| Wvtt.WvttBox.constructor | mp4/wvtt.go:26-28 | A new wvtt box has data reference index 1, no children and all typed fields empty. |
| Wvtt.WvttBox.Zero | mp4/wvtt.go:54 | The box that decoding starts from has index 0 and no children. |
| Wvtt.WvttBox.AddChild | mp4/wvtt.go:31-44 | The child is appended. Only the field of its kind changes, and it now holds the child. The data reference index is unchanged. `Valid()` is preserved. |
| Wvtt.WvttSizeAppend | mp4/wvtt.go:91-97 | A wvtt box's size grows by exactly the size of each child added. |
| Wvtt.WvttBox.Size | mp4/wvtt.go:91-97 | The loop's total is 16 bytes plus the children's sizes, as the size function specifies. |
| Wvtt.WvttBytes | mp4/wvtt.go:100-123 | The encoding is laid out as: a header carrying the box size, six zero bytes, the data reference index big-endian, then the children's encodings. |
| Wvtt.WvttBox.Encode | mp4/wvtt.go:100-123 | The bytes the loop writes are exactly that layout for the box's current index and children. |
| Wvtt.WvttChildren | mp4/wvtt.go:61-81 | A scan that ends exactly at the declared end covers the children's total size. A scan that hit end of stream early covers less. |
| Wvtt.WvttChildrenStopsEarly | mp4/wvtt.go:66-68 | When well-formed children end before the declared end, the scan stops at end of stream and succeeds with all of them. |
| Wvtt.WvttChildrenOverrun | mp4/wvtt.go:76-79 | When the declared end falls strictly inside the k-th of a list of well-formed children, the scan fails with "Bad size in wvtt". |
| Wvtt.DecodeWvtt | mp4/wvtt.go:49-83 | Decoding fails exactly when the child scan fails, with the same error: a child fault, or a child running past the declared end. On success the box is new, valid, holds the scanned children in order and carries the index read from payload bytes 6-7. |
| Wvtt.WvttDecodeEncode | mp4/wvtt.go:49-123 | For a wvtt box of well-formed children, decoding what `Encode` writes gives back its type, size, index and children, the loop stopping exactly at the declared size. |
| Wvtt.VttcBox.constructor | mp4/wvtt.go:268-275 | A new vttc box has no children and all typed fields empty. |
| Wvtt.VttcBox.AddChild | mp4/wvtt.go:278-295 | The child is appended, and only the field of its kind changes, to that child. `Valid()` is preserved. |
| Wvtt.VttcBox.Size | mp4/wvtt.go:316-318 | A vttc box's size is its header plus its children's total size. |
| Wvtt.VttcBox.Encode | mp4/wvtt.go:326-328 | The encoding is that many bytes: a big-endian size, the code `vttc`, then the children's encodings. |
| Wvtt.DecodeVttc | mp4/wvtt.go:298-308 | Decoding fails exactly when the children fail to decode, with the same error. On success the box is new, valid and holds the decoded children in order. |
| Wvtt.VttcDecodeEncode | mp4/wvtt.go:298-328 | The bytes a vttc box writes after its header decode back to its children. |
| Cenc.HexDecode | examples/decrypt-cenc/main.go:39-42 | An even-length string decodes to half as many bytes, or fails on a bad digit. |
| Cenc.ParseKey | examples/decrypt-cenc/main.go:36-42 | The key is rejected for its length exactly when it is not 32 characters long. An accepted key is 16 bytes. |
| Cenc.HexRoundTrip | examples/decrypt-cenc/main.go:39-42 | Decoding the lower-case hex spelling of any bytes gives those bytes back. |
| Cenc.ParseKeyRoundTrip | examples/decrypt-cenc/main.go:36-42 | The hex spelling of any 16-byte key is accepted and parses to that key. |
| Cenc.HexDecodeFails | examples/decrypt-cenc/main.go:39-42 | Decoding fails exactly when some character is not a hex digit. |
| Cenc.TrafFor | examples/decrypt-cenc/main.go:206-213 | There is no result exactly when no traf has the track ID. Otherwise the result is one of the trafs and has that ID. |
| Cenc.FindTraf | examples/decrypt-cenc/main.go:206-213 | The loop returns the lookup's result. |
| Cenc.FindTrex | examples/decrypt-cenc/main.go:87-92 | With no trex there is no result. Otherwise the result is the first trex with the track ID. If none matches, it is the last trex: the loop variable keeps the last element. |
| Cenc.NormalizeIV | examples/decrypt-cenc/main.go:216-224 | An 8-byte IV becomes that IV followed by eight zero bytes. Any other IV is used unchanged. |
| Cenc.WalkFailureSticks | examples/decrypt-cenc/main.go:235-238 | Once a protected span fails to decrypt, the whole sample fails with that span's error. |
| Cenc.WalkLength | examples/decrypt-cenc/main.go:226-241 | With a length-preserving cipher, a decrypted sample is as long as the subsample total. |
| Cenc.WalkSucceeds | examples/decrypt-cenc/main.go:230-241 | The walk over a subsample list succeeds exactly when the cipher accepts every protected span. |
| Cenc.WalkSpans | examples/decrypt-cenc/main.go:227-241 | Every clear span is copied unchanged. Every protected span is the cipher's output of that span with the sample's IV. |
| Cenc.DecryptSubsamples | examples/decrypt-cenc/main.go:227-241 | The loop's result is the span-by-span decryption: the first cipher error, or the concatenated output. |
| Cenc.SampleDecryption | examples/decrypt-cenc/main.go:249-254 | A decrypted sample keeps the sample's metadata and decode time. |
| Cenc.SampleDecryptionBytes | examples/decrypt-cenc/main.go:215-254 | With no subsamples, the whole sample goes through the cipher, and a failure there fails the sample. With subsamples, the sample succeeds exactly when every protected span decrypts. It then holds as many bytes as the subsamples list, each clear span copied and each protected span decrypted. |
| Cenc.DecryptSample | examples/decrypt-cenc/main.go:215-255 | The method's result is the sample decryption. |
| Cenc.OneSubsampleScenario | examples/decrypt-cenc/main.go:215-255 | Take a 32-byte sample with an 8-byte IV and one subsample of 8 clear and 24 protected bytes. It decrypts to the first 8 bytes followed by the cipher's output for the other 24, with the IV zero-extended. |
| Cenc.DecryptFirst | examples/decrypt-cenc/main.go:196-203 | Success means every sample before the stopping point was in range and decrypted. |
| Cenc.DecryptFirstSpec | examples/decrypt-cenc/main.go:196-203 | The fragment succeeds exactly when every sample is in range and decrypts, and then holds each sample's decryption in order. A failure carries the error of the first failing sample, with every sample before it in range and decrypted. |
| Cenc.DecodeFragment | examples/decrypt-cenc/main.go:180-204 | The loop over the traf of the track gives the fragment decryption. Its precondition covers only the samples the loop reaches. |
| Cenc.FirstFailureStops | examples/decrypt-cenc/main.go:196-200 | When the first of two samples fails to decrypt, the fragment fails with that error even though the second sample has no IV. |
| Cenc.DecryptFirstSticks | examples/decrypt-cenc/main.go:196-200 | A failure among the first m samples is the result for any longer prefix. |

## Left out

- I/O: readers, writers and `Info` methods are left out. Decoders take the payload bytes, and encoders return them.
- `GetChildren` is left out: it only returns the children field.
- In decrypt-cenc, the file handling, `decryptCenc`'s loop over the tracks, `decodeSegments`, `createVideoInit`/`createAudioInit` and the output writing are left out. They are I/O and box rewriting, not decryption.
- `frag.GetFullSamples` is an input: the samples are a parameter. Its error path is not modelled.
- Interpreting `saio`/`saiz` is not modelled; the source does not do it either.
- `mp4.DecryptSampleCTR`, the AES-CTR cipher, is foreign code: it is the parameter `ctr`, and its length preservation is a hypothesis.
- The box header reader and writer, the box registry and `DecodeContainerChildren` are not part of this model's source. They are modelled from the framework's documented contract:
  - size 1 means a 64-bit size follows;
  - size 0 means the box runs to the end of the stream;
  - a size below 8 is an error;
  - the registry only knows the WebVTT leaf boxes, `vttc` and `btrt`. `wvtt` and every other type decode as an opaque box.
- Aliasing is modelled as value equality: a typed field holds a value equal to the child, not the same object.
- Wvtt.DecodeWvtt: requires 8 payload bytes. On fewer, the outcome depends on the slice reader's `SkipBytes` and `ReadUint16`, which are not part of this model.
- Wvtt.WvttBox.Size: does not model uint64 wrap-around of the total; sizes are unbounded naturals.
- Wvtt.WvttBox.Encode: the size field is the size truncated to 32 bits. That is the model's assumption about the header writer, which is not part of this model. The exact box bytes are not modelled for sizes of 2^32 or more, where the writer would need a 64-bit header.
- Wvtt.WvttChildren: positions are unbounded integers, not uint64, so there is no wrap-around when positions are added.
- Cenc.DecodeFragment: requires a traf for the track; `findTraf` panics without one. A nil `senc` is not modelled. It also requires each sample the loop reaches, every earlier sample having decrypted, to have an IV and a subsample list and spans that fit its data; samples after the first failure are unconstrained.
- Cenc.DecryptSample: requires an IV and a subsample list at the sample's index; Go indexes out of range without them. It also requires the subsample spans to fit in the sample's data. For spans that do not fit, Go panics or reads past the sample's end, depending on the buffer's capacity.
- Cenc.DecryptSubsamples: the position is an unbounded natural, not a uint32. Go's `pos` wraps once the subsample total reaches 2^32, which only a sample of 4 GiB or more allows, and the model does not follow that wrap.
- Cenc.ParseKey: the length check counts characters, while Go's `len` counts bytes. The two agree for ASCII keys, and a non-ASCII character is never a hex digit.
