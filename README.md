# udp-sensor-server: packet parser and per-device reassembly

This project models, in Dafny, the core of `IoTUDPServer` in `udp-server.py`.
Sensor devices send UDP datagrams of the form

    SERIAL<sendVal k=v;k=v;...>CHECKSUM

A device's reading spans several datagrams and ends with an end marker, a
datagram with an empty body (`SERIAL<sendVal>...`). The model covers four
things:

- **`parse_packet`** turns one decoded datagram into a fragment: the serial,
  the channel map, the raw text and the end-marker flag. If any step raises,
  it gives nothing.
- **The receive-loop branch** handles a parsed fragment. A data fragment is
  appended to `packet_buffer[serial]`. An end marker for a pending serial
  triggers `process_complete_dataset`.
- **`process_complete_dataset`** merges the serial's channel maps in arrival
  order, with last write winning. It also collects the raw packets and
  deletes the serial's entry.
- **The `packet_buffer` state** itself.

## Modules

- `text.dfy`, module `Text`. The Python `str` operations the parser uses,
  on `string` = `seq<char>`:
  - `strip()`, with Python's `isspace` character set;
  - `split(c)` with a one-character separator;
  - the `in` substring test;
  - `replace(pat, '')`.

  Their lemmas cover split/join round trips, piece counts and stripping.
- `merge.dfy`, module `Merge`. `Overlay` models a sequence of `dict.update`
  calls. Its lemmas cover key presence, last write wins, concatenation and
  empty writes.
- `protocol.dfy`, module `Protocol`. It holds:
  - `Parse`, a pure specification of `parse_packet`;
  - `ParsePacket`, `ReadChannels` and `StoreValue`, imperative methods that
    follow the source's loop and assignments;
  - lemmas that characterise acceptance, rejection, end markers and the
    channel map.
- `reassembly.dfy`, module `Reassembly`. It holds:
  - `Step`, a pure specification of one pass of the receive-loop branch;
  - `Run`, which applies `Step` over a stream of fragments;
  - the class `Reassembler`, with the `packetBuffer` field and the methods
    `ProcessCompleteDataset`, `Ingest` and `Receive`;
  - lemmas about whole transmissions and interleaved devices.
- `examples.dfy`, module `Examples`. Worked payloads: a data packet plus its
  end marker forming one reading, and the protocol's edge cases.
- `wrappers.dfy`, module `Wrappers`: `Option`.

`float(value)` is a parameter `num: string -> Option<real>`. `None` stands for
the `ValueError` it raises, and reals stand in for Python floats.

### Quirks of `parse_packet`

- **A missing `>` is accepted.** The content runs to the next `<` or to the
  end of the payload (`udp-server.py:65`).
- **A payload whose content lacks `sendVal` is dropped.** In that case
  `channels_part` is never bound. Reading it at line 90 raises, and the
  handler at lines 93-95 returns `None`.
- **`replace` removes every `sendVal` in the content**, wherever it occurs
  (line 71).
- **A token is split on every `=`.** A token with two or more `=` makes the
  tuple unpack raise, and the whole packet is dropped (line 75).
- **A fragment is an end marker exactly when its body is blank.** A non-empty
  body with no usable assignment is a data fragment with no channels. Examples
  are `;;`, or bodies whose only values `float` rejects (line 90).

## Model

| member | source | states |
|---|---|---|
| Text.Strip | udp-server.py:71 | the stripped text is empty or starts and ends with a non-blank |
| Text.StripOnlyBlanks | udp-server.py:71 | `strip()` cuts only blanks: the result is a slice of the text with only blanks before and after it |
| Text.StripUnchanged | udp-server.py:71 | `strip()` leaves a text unchanged exactly when it is empty or has no blank at either end |
| Text.StripIdempotent | udp-server.py:90 | stripping the already stripped body again changes nothing |
| Text.StripKeepsCount | udp-server.py:75 | stripping keeps the number of every non-blank character, so `=` counts survive `channel.strip()` |
| Text.IndexOf | udp-server.py:64 | the index is that of the first occurrence: in range, holding the character, and none before it |
| Text.BeforeFirst | udp-server.py:65 | the text before the first separator is a prefix of the text, holds no separator, and is followed by the separator when there is one; with no separator it is the whole text |
| Text.Split | udp-server.py:64 | `split(c)` always gives at least one piece, so `[0]` of it never fails |
| Text.SplitPieces | udp-server.py:73 | `split(c)` gives one more piece than there are separators, and no piece holds the separator |
| Text.SplitHead | udp-server.py:64-65 | piece 0 is the text before the first separator; piece 1, if there is one, is the text between the first and the second |
| Text.SplitOnce | udp-server.py:75 | with exactly one separator, the two pieces are the text before it and the text after it |
| Text.JoinSplit | udp-server.py:73 | joining the pieces with the separator gives back the original text |
| Text.SplitJoin | udp-server.py:73 | splitting a join of separator-free pieces gives back the pieces |
| Text.ContainsAt | udp-server.py:70 | `pat in s` holds exactly when `pat` occurs at some position of `s` |
| Text.ContainsNeedsFirst | udp-server.py:70 | a text lacking the pattern's first character does not contain the pattern |
| Text.RemoveAll | udp-server.py:71 | `replace(pat, '')` never lengthens the text |
| Text.RemoveAllChanges | udp-server.py:71 | `replace(pat, '')` changes the text exactly when the pattern occurs in it |
| Merge.OverlayKeys | udp-server.py:155-159 | a key is in the merged map exactly when some merged map has it |
| Merge.OverlayLastWrite | udp-server.py:158-159 | the merged value of a key is that of the last map that has the key |
| Merge.OverlayAppend | udp-server.py:158-159 | merging a concatenation is merging the two merges, the later one on top |
| Merge.OverlaySkipsEmpty | udp-server.py:159 | updating with an empty map anywhere in the sequence changes nothing |
| Merge.OverlayOfEmpty | udp-server.py:155-159 | merging only empty maps gives the empty map |
| Protocol.Writes | udp-server.py:73-83 | there is one write per token, in token order, and each is what that token stores |
| Protocol.WritesSnoc | udp-server.py:73-83 | one more well-formed token puts its own write on top of the merge so far |
| Protocol.StoreValue | udp-server.py:76-83 | the inner `try`: the channel is set to `None` for `NaN`, to the number when `float` accepts the value, and is left alone otherwise |
| Protocol.ReadChannels | udp-server.py:69-83 | the channel loop returns `None` exactly when some token makes the unpack raise, and otherwise the last-write-wins merge of the token writes |
| Protocol.ParsePacket | udp-server.py:58-95 | the method on a decoded payload gives exactly the fragment, or the `None`, of the parse specification |
| Protocol.Window | udp-server.py:65 | the bracket content holds neither `<` nor `>` |
| Protocol.ContentIsWindow | udp-server.py:64-65 | the serial is the text before the first `<`; the content is the text after it, cut at the next `<` and then at the first `>` |
| Protocol.FramedPayload | udp-server.py:64-65 | for `serial<inner>tail` the serial is `serial` and the content is `inner`, whatever the tail holds |
| Protocol.UnclosedPayload | udp-server.py:65 | for `serial<inner` with no `>`, the content is `inner` |
| Protocol.MarkedContent | udp-server.py:70-71 | content that opens with `sendVal` and does not repeat it passes the marker test, and its body is the stripped rest |
| Protocol.ParseByWindow | udp-server.py:64-91 | a payload whose content holds the marker gives the serial before the first `<`; it is an end marker with no channels when the body is empty, and otherwise carries the channels of the body's tokens or fails with them |
| Protocol.MarkedPayload | udp-server.py:58-91 | `serial<sendVal rest>tail` is an end marker when `rest` is blank, and otherwise a data fragment with the channels of `rest`'s tokens, or `None` when a token is malformed |
| Protocol.UnclosedMarkedPayload | udp-server.py:58-91 | the same holds for `serial<sendVal rest` without a closing `>` |
| Protocol.TokenWriteOf | udp-server.py:74-83 | a `key=value` token without blanks at its ends is well formed, and writes what `key` and `value` assign |
| Protocol.ParseRejects | udp-server.py:58-95 | a payload is dropped exactly when it has no `<`, or its content lacks `sendVal`, or its body is non-empty and some token holds two or more `=` |
| Protocol.ParsedFragment | udp-server.py:85-91 | an accepted payload has the serial before the first `<` (which holds no `<`), keeps the raw text, is an end marker exactly when the body is empty, then has no channels, and otherwise has its tokens' channels |
| Protocol.MalformedIffManyEquals | udp-server.py:75 | the tuple unpack raises exactly on a token with two or more `=` |
| Protocol.ChannelsRejectIffManyEquals | udp-server.py:73-75 | the channel loop fails exactly when some token holds two or more `=` |
| Protocol.OneEquals | udp-server.py:75 | a token with one `=` splits, once stripped, into the text before it and the text after it |
| Protocol.AssignmentToken | udp-server.py:74-75 | a token with one `=` stores under the stripped text before it the value after it (inner blanks kept) |
| Protocol.WellFormedConcat | udp-server.py:73-75 | a token list is free of malformed tokens exactly when both of its parts are |
| Protocol.WritesConcat | udp-server.py:73-83 | the writes of a concatenation are the writes of the parts, in order |
| Protocol.SilentTokenIgnored | udp-server.py:73-83 | a well-formed token that stores nothing can be removed without changing the outcome |
| Protocol.NoEqualsTokenSkipped | udp-server.py:74 | a token without `=`, the empty one included, is skipped |
| Protocol.NoAssignmentNoChannels | udp-server.py:72-74 | tokens none of which holds `=` give an empty channel map and no error |
| Protocol.UnparsableValueDropped | udp-server.py:80-83 | a value `float` rejects drops only its own write; an earlier value for the same channel survives |
| Protocol.ChannelPresent | udp-server.py:73-83 | a channel is in the map exactly when some token writes it |
| Protocol.ChannelLastWrite | udp-server.py:79-81 | a channel holds the value of the last token that writes it |
| Protocol.NaNStoredAsNone | udp-server.py:78-79 | a `NaN` value that is its channel's last write is stored as `None` |
| Reassembly.Own | udp-server.py:196 | a serial's own fragments are exactly the stream's fragments with that serial |
| Reassembly.StepConsistent | udp-server.py:187-196 | every step keeps the buffer consistent: each pending serial holds at least one fragment, all its own and none an end marker |
| Reassembly.StepIsolated | udp-server.py:188-196 | a step changes no serial other than the fragment's own |
| Reassembly.UnknownEndMarkerIgnored | udp-server.py:190-193 | an end marker for a serial with nothing pending yields nothing and changes nothing |
| Reassembly.RunConsistent | udp-server.py:183-196 | a stream of fragments keeps the buffer consistent |
| Reassembly.RunCollects | udp-server.py:183-196 | until its end marker, a serial's pending fragments are what it had plus its own fragments of the stream, in arrival order |
| Reassembly.Transmission | udp-server.py:151-169 | after interleaved traffic, a device's end marker yields one reading built from exactly that device's fragments in arrival order, and leaves nothing pending for it; with no fragment, it yields nothing |
| Reassembly.ReadingContents | udp-server.py:155-160 | the reading keeps every raw packet in arrival order, and a channel is present exactly when some fragment carries it |
| Reassembly.ReadingLastWriteWins | udp-server.py:158-159 | a channel of the reading holds the value from the last fragment that carries it |
| Reassembly.Reassembler.constructor | udp-server.py:28 | the buffer starts empty and consistent |
| Reassembly.Reassembler.ProcessCompleteDataset | udp-server.py:151-169 | the loop's merge and raw list are the assembled reading of the serial's fragments, which is never empty, and the serial's entry is deleted; nothing else changes |
| Reassembly.Reassembler.Ingest | udp-server.py:187-196 | the new buffer and the result are exactly those of the step specification, and the buffer stays consistent; a reading is always the fragment's own serial's and holds at least one packet |
| Reassembly.Reassembler.Receive | udp-server.py:184-196 | a dropped payload changes nothing and yields nothing; a parsed one is ingested |
| Examples.SingleToken | udp-server.py:73-83 | a body of one well-formed token stores that token's write |
| Examples.TwoTokens | udp-server.py:73-83 | a body of two well-formed tokens stores the first write, with the second on top |
| Examples.NumberToken | udp-server.py:80-81 | `k=v`, where `float` accepts `v`, stores the number under `k` |
| Examples.NaNToken | udp-server.py:78-79 | `k=NaN` stores `None` under `k` |
| Examples.DataPacketParses | udp-server.py:58-91 | `D1<sendVal 0=5;1=NaN>C` is a data fragment of serial `D1` with channel `0` = 5 and channel `1` = `None` |
| Examples.EndPacketParses | udp-server.py:70-72 | `D1<sendVal>C` is an end marker of serial `D1` with no channels |
| Examples.DataThenEnd | udp-server.py:187-196 | one data fragment followed by its end marker yields a reading of that fragment alone, and leaves the buffer empty |
| Examples.TwoPacketTransmission | udp-server.py:187-196 | the data packet, then the end marker, yield one reading holding the data packet's channels and raw text |
| Examples.RepeatedChannelLastWins | udp-server.py:73-81 | in `0=1;0=2` the channel keeps the later value |
| Examples.SeparatorsOnlyIsData | udp-server.py:72-74 | a body of bare separators is a data fragment with no channels, not an end marker |
| Examples.UnclosedAccepted | udp-server.py:65 | a payload without `>` is accepted |
| Examples.DoubleAssignmentRejected | udp-server.py:75 | a token `0=1=2` drops the whole packet |
| Examples.MissingMarkerRejected | udp-server.py:70 | content without `sendVal` drops the packet |
| Examples.MissingOpenRejected | udp-server.py:65 | a payload without `<` is dropped |

## Left out

- The socket and the endless receive loop (lines 174-184 and 198-204) are not modelled as such. `Receive` models one pass of the loop on one payload. `Run` applies `Step` to a stream of fragments that are already parsed, not `Receive` to raw payloads; a payload that `parse_packet` drops is simply absent from that stream. Shutdown, `KeyboardInterrupt` and `sock.close()` are left out.
- UTF-8 decoding (line 61) is left out. Payloads are decoded text. A datagram that is not valid UTF-8 makes `parse_packet` return `None`, and the model does not represent that case.
- `float` (line 81) is the abstract parameter `num`. Python's float syntax, `inf`/`nan` spellings and rounding are not modelled. Reals stand in for floats.
- The checksum (line 66) is left out. It is computed but never used after parsing, and its `split('>')[-1]` cannot raise.
- Logging is left out: the set-up at lines 16-25 and the warnings and errors at lines 83, 94 and 172.
- The SQLite and JSON sink is left out (lines 30-32, 38-56, 97-112). So is the CSV sink (lines 34-36, 114-149). `ProcessCompleteDataset` returns the reading that both sinks receive.
  - The sinks catch their own errors: `save_to_database` catches `sqlite3.Error` and `write_to_csv` catches every exception. So the model always deletes the entry.
  - An exception other than `sqlite3.Error` escaping `save_to_database` would skip the `del` at line 169. That case is not modelled.
- The constructor's `host`, `port` and `buffer_size` settings are left out, and so is the creation of the output directory (lines 11-14, 35-36).
- `Reading.channels` is a map, so it loses the insertion order of `combined_channel_data`. That order shows in the JSON text `json.dumps` writes at line 107; the key set and the values are kept.
- Each serial's inner dict in `packet_buffer` is keyed `0..n-1` by insertion (line 196). It is modelled as the sequence of its values in that order.
- The `is_end_marker` strip at line 90 is modelled as the repeated `Strip` it is. `Text.StripIdempotent` shows that it changes nothing.
