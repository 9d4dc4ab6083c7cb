# A verified model of Swiss's unpacker and drivers

Swiss for the GameCube unpacks its own executable with an XZ decoder and then serves games from several devices. This
project models the parts of it that are state machines over bytes and proves that each agrees with something simple.

* **Unpacking** (`RangeCoder` to `Lzma2Encoding`, `PowerPc`, `Bcj`, `Crc32`, `Vli` and the `Xz` modules). `RangeCoder`,
  `LzmaModel`, `LzmaChunk` and `Lzma2Reference` say what a stream means as functions of the whole stream;
  `LzmaEncoding` and `Lzma2Encoding` give an encoder over unbounded integers, and the round trips are proved between
  the two. `RangeDecoder`, `Dictionary`, `LzmaDecoder`, `Lzma2Input`, `Lzma2` and `Bcj` are the program's objects, with
  its fields, its probability array and its buffers updated in place, proved to compute what those functions say for
  every way of cutting input and output into buffers. `Crc32`, `Vli`, `XzBlock` and `XzIndex` do the same for the check
  value, the integers, the Block's sizes and the Index of the container, and `XzHeader` and `XzStream` put all of it
  together as the program does, in a single call: `XzStream.Run` comes to the end if and only if the input is a
  well-formed stream for whose data there is room (sections 1.2 and 2 to 4 of the .xz format).
* **What the format's numbers are** (`LzmaKinds`, `LzmaContexts`, `CrcDivision`, `CrcExamples`, `XzExample`). Decoder,
  reference and encoder share the tables and constants of the format, so a round trip cannot tell a wrong one. These
  modules say them again in other terms: the state as the kinds of the latest symbols, the layout of the probabilities as
  what must not be shared, the check value as the remainder of a long division by a polynomial given by its exponents,
  and a whole file as its literal bytes. `RangeCoder.BitDecides`, `RangeDecoder.RangeDec.Bit`, `PowerPc.GroupMoves` and
  `Adpcm.DecodeIs` do the same for the steps they are about.
* **Devices** (`RequestQueue`, `GcLoader`, `DiscRead`, `FspClient`, `Fat`, `SdCard`, `Fragments`): request queues with
  re-entrant callbacks, reads done in pieces, file transfer over a lossy network, a cluster chain with a seek shortcut,
  a sector cache beside an open stream, and an overlay of fragments.
* **Emulation** (`Fifo`, `Adpcm`, `DiscAudio`, `EthernetRing`): streamed audio and the receive ring of a network adapter.

`Bytes`, `Words` and `Conversions` hold arithmetic that several of them use; `Words` says what masks and comparisons of machine words
mean for the numbers they stand for.

What the model takes from outside: the stream or card is a ghost or constant byte string, buffers are handed in per
call, and the network or an interrupt is a method that may be called in any order. What a device answers, whether it
takes a request, how much it brings and whether it fails, is an input: a parameter of the operation or a list from which
the answers are taken in turn, so that no operation chooses its own failures. What a completion callback asks for is a
parameter, a list of further requests: any list, and in `GcLoader` any list of which the clients with a request still
waiting ask nothing.

## Where the code differs from its comments or its purpose

* `cube/packer/source/xz/xz_dec_lzma2.c:27-37` says that `pos <= limit` always. It does not hold after the stream
  01 00 00 07, a dictionary reset and one byte stored as it is (`Lzma2.LimitPassed`). Exactly when it holds: every
  operation but `dict_uncompressed` keeps or establishes it (`Dictionary.Dict.Reset`, `SetLimit`, `Put`, `Repeat`,
  `Flush`); after `dict_uncompressed` it holds if and only if the position, advanced by the smallest of chunk, input and
  room, around the ring in multi-call mode, is at most the limit (`Dictionary.Dict.Uncompressed`). `Lzma2.Lzma2Dec.Pass`
  says both for the passes of the whole decoder. Symbol decoding, the only code that relies on it, follows a
  `dict_limit`. The other parts of the comment are in `Dictionary.Dict.Valid`.
* The comment at `cube/packer/source/xz/xz_dec_lzma2.c:16-25` counts 22 adaptive and 26 direct decisions for the longest
  symbol. A symbol may also take 23 adaptive decisions and no direct one (`LzmaTraces.CountLongest`), but never more than
  the one or the other (`LzmaTraces.CountSymbol`); the limit of 20 bytes holds for both (`LzmaChunk.SymbolConsumption`).
  It needs only a range that any decision leaves behind, at least 253952, and says nothing of the code, so that it also
  covers input for which the code is not below the range.
* `xz_dec_bcj_run` is to return after its first decoding in single-call mode (`cube/packer/source/xz/xz_dec_bcj.c:612-614`),
  but the flag for that is never set in this program. Given all of a well-formed stream, the call ends if and only if
  there is room for the text, and it returns if and only if there is, or the room is a multiple of four. In general,
  with the output full but for an unfinished word, the decoder is run again with an output that is not its dictionary,
  and from there the call never returns exactly if there is input the decoder can never take: input for a stored chunk,
  the rest of an LZMA chunk, or a symbol's worth of it (`Bcj.BcjDec.FilterSingle`, `Lzma2.Lzma2Dec.RunElsewhere`). The
  stream 01 00 04, five bytes and 00 with room for three does not return (`Bcj.NoReturn`). The program gives the call
  room for just the data that was packed (`cube/packer/source/main.c:36-41`), and so does not get there
  (`XzStream.UnpackFile`).
* `dtk_fill_buffer` assigns `reading` the result of submitting a read (`cube/patches/base/emulator.c:577`), also when the
  device has completed the read and run its callback inside that call, as the SD driver does for a kept sector
  (`cube/patches/sdgecko/sd.c:265-268`). Then `reading` stays set, and if no read is under way none is ever submitted
  again. `DiscAudio.Streamer.FillBuffer` says exactly when that is: when the last read completed inside left nothing
  playing or fewer than 448 free samples, or the read after it was refused.

## Model

| member | source | states |
|---|---|---|
| RangeCoder.RoundTrip | cube/packer/source/xz/xz_dec_lzma2.c:480-596 | For every list of adaptive and direct decisions, decoding the bytes of an encoder that keeps its interval in unbounded integers returns the same decisions and the same probabilities, whatever follows, has used exactly the encoder's bytes after the closing normalisation, and ends with code 0. |
| RangeCoder.TracksAll | cube/packer/source/xz/xz_dec_lzma2.c:509-596 | While the bytes are those of an encoder, the 32-bit decoder with its late one-byte normalisation keeps standing inside the exact interval, so it takes every decision as the encoder did and stands right for the decisions after them. |
| RangeCoder.EncodeFromZero | cube/packer/source/xz/xz_dec_lzma2.c:480-491 | The exact interval of a list of decisions, coded from any low end, is the one coded from zero, shifted and added: no carry is ever lost. |
| RangeCoder.Nested | cube/packer/source/xz/xz_dec_lzma2.c:509-596 | The final interval lies inside the one it was coded from, over all later shifts. |
| RangeCoder.SameProbs | cube/packer/source/xz/xz_dec_lzma2.c:528-547 | Decoder and encoder adapt every probability alike when they take the same decisions. |
| RangeCoder.BitDecides | cube/packer/source/xz/xz_dec_lzma2.c:509-547 | A decision takes as many 2048ths of the range, after at most one byte more, as its probability says: 0 below, 1 above; range and code go on with the part taken. |
| RangeCoder.DirectHalves | cube/packer/source/xz/xz_dec_lzma2.c:584-596 | A direct decision says in which half of the range the code is. |
| RangeCoder.Saturates | cube/packer/source/xz/xz_lzma2.h:19 | From any probability, and so from 1024, zeros in a row bring it up by at least one each to 2017, ones down to 31, and there it stays. |
| Consumption.WithinBit | cube/packer/source/xz/xz_dec_lzma2.c:509-547 | From a range of at least 253952 on, which every decision leaves, one more adaptive decision keeps the product bound on the range and stays within the symbol's twenty bytes. |
| Consumption.WithinDirect | cube/packer/source/xz/xz_dec_lzma2.c:584-596 | The same for a direct decision, which may also shrink the range by the odd bit it loses. |
| Consumption.NoFurtherByte | cube/packer/source/xz/xz_dec_lzma2.c:16-25 | After twenty bytes and as many decisions as a symbol may take, the range cannot fall below 2^24 once more; the proof computes the product bound over 22 adaptive and 26 direct decisions, or 23 adaptive ones. |
| LzmaTraces.CountSymbol | cube/packer/source/xz/xz_dec_lzma2.c:19-25 | No symbol takes more than 22 adaptive and 26 direct decisions, or 23 adaptive ones and none direct, and the last one is always adaptive. |
| LzmaTraces.CountLongest | cube/packer/source/xz/xz_dec_lzma2.c:19-25 | Both bounds are attained: a match of 18 or more bytes takes 23 adaptive decisions and no direct one at a distance of slot 12 or 13, and 22 and 26 in the last two slots. |
| LzmaTraces.LongestSlots | cube/packer/source/xz/xz_dec_lzma2.c:677-713 | There are distances of these slots. |
| LzmaChunk.SymbolConsumption | cube/packer/source/xz/xz_dec_lzma2.c:16-25 | For every input, corrupt or not, one symbol reads at most 20 bytes, and at most 21 with the closing normalisation. |
| LzmaEncoding.SymbolDecodes | cube/packer/source/xz/xz_dec_lzma2.c:611-750 | If the decisions that stand for a symbol come first, the decoder returns that symbol, with the next state and distances, and stands before the decisions that follow. |
| LzmaTraces.SymbolProduces | cube/packer/source/xz/xz_dec_lzma2.c:611-750 | Whatever the input, what the decoder returns is a symbol an encoder could have written, read from exactly that symbol's decisions: with SymbolDecodes, decoding is a bijection between decisions and symbols. |
| LzmaChunk.SymbolLocal | cube/packer/source/xz/xz_dec_lzma2.c:509-596 | A symbol depends only on the bytes it consumes, wherever they lie. |
| LzmaChunk.SymbolOverruns | cube/packer/source/xz/xz_dec_lzma2.c:509-596 | Where two inputs agree on n bytes, a symbol overruns them in one exactly when it does in the other. |
| LzmaChunk.RunSplit | cube/packer/source/xz/xz_dec_lzma2.c:753-792 | A run of a + b symbols is a run of a followed by one of b, and corruption is final. |
| LzmaChunk.EndsOnce | cube/packer/source/xz/xz_dec_lzma2.c:1094-1120 | A run reaches longer histories only with more symbols, so an accepted chunk has one result. |
| LzmaChunk.ChunkRoundTrip | cube/packer/source/xz/xz_dec_lzma2.c:480-792 | An encoded chunk decodes to the text its symbols stand for, is used up exactly, and leaves code 0 and no symbol over. |
| LzmaModel.PropsByte | cube/packer/source/xz/xz_dec_lzma2.c:831-860 | The three properties are recovered from the byte that packs them, and the byte is accepted exactly when lc + lp <= 4 and pb <= 4. |
| LzmaKinds.StateTells | cube/packer/source/xz/xz_lzma2.h:30-82 | After any list of symbols the state is the code of the kinds of the latest ones: 7 exactly for a match after a literal, 10 for a match after none, 8 and 9 for a long and a short repeat after a literal, 11 for a repeat after none, 0 to 6 by what stands before the last one, two or three literals. |
| LzmaContexts.Separate | cube/packer/source/xz/xz_dec_lzma2.c:158-211 | Decisions of different kinds, states, position states, slots or places in a tree have different probabilities, and there is room for all of them. |
| LzmaContexts.SameCoder | cube/packer/source/xz/xz_dec_lzma2.c:603-609 | Two literals share their coder exactly if the bytes before agree in the lc highest bits and the positions in the lp lowest. |
| LzmaContexts.SameSlotTree | cube/packer/source/xz/xz_lzma2.h:128-145 | Match lengths share a slot tree exactly if they are equal or both at least five. |
| LzmaContexts.MatchedParts | cube/packer/source/xz/xz_dec_lzma2.c:619-640 | After a match the part of the literal coder is chosen by the next bit of the byte at the last distance as long as the bits agreed, and by nothing after that. |
| LzmaModel.LiteralContext | cube/packer/source/xz/xz_dec_lzma2.c:603-609 | The literal coder chosen is always one of the sixteen that exist. |
| LzmaModel.SlotBounds | cube/packer/source/xz/xz_dec_lzma2.c:677-713 | Every distance slot keeps to its own part of the probabilities, and no distance exceeds 32 bits. |
| LzmaModel.LzCopyPeriod | cube/packer/source/xz/xz_dec_lzma2.c:349-374 | In the result of an overlapping copy every new byte equals the one a distance before it. |
| LzmaModel.LzCopySplit | cube/packer/source/xz/xz_dec_lzma2.c:349-374 | A copy interrupted by the dictionary limit and resumed is the whole copy. |
| LzmaPieces.RunTransfer | cube/packer/source/xz/xz_dec_lzma2.c:878-957 | k symbols decoded from a buffer that holds only a stretch of the chunk are k symbols of the chunk, or the chunk is corrupt when they ran past its end. |
| LzmaPieces.FailureTransfer | cube/packer/source/xz/xz_dec_lzma2.c:878-957 | A bad distance met in such a buffer makes the chunk corrupt. |
| LzmaPieces.BelowTransfer | cube/packer/source/xz/xz_dec_lzma2.c:878-957 | A run that stayed below the output limit in such a buffer stays below it on the chunk. |
| Dictionary.Dict.Reset | cube/packer/source/xz/xz_dec_lzma2.c:289-300 | A reset empties the history; in single-call mode the dictionary becomes the rest of the output buffer. |
| Dictionary.Dict.SetLimit | cube/packer/source/xz/xz_dec_lzma2.c:303-309 | The limit is what was asked for or the end, and from here on pos <= limit. |
| Dictionary.Dict.Get | cube/packer/source/xz/xz_dec_lzma2.c:323-331 | In a linear and in a circular dictionary, the byte at distance d is the (d+1)-th last of the unbounded history, or 0 when there is none yet. |
| Dictionary.Dict.Put | cube/packer/source/xz/xz_dec_lzma2.c:336-342 | One byte is added to the history; start <= pos <= full <= end, limit <= end and full in {pos, end} are kept, and pos <= limit. |
| Dictionary.ConsistentPut | cube/packer/source/xz/xz_dec_lzma2.c:336-342 | Adding a byte at the position keeps the buffer a window on the end of the history, in both modes. |
| Dictionary.RingWrap | cube/packer/source/xz/xz_dec_lzma2.c:442-445 | Going back to the front when the end is reached leaves every distance as it was. |
| Dictionary.Dict.Repeat | cube/packer/source/xz/xz_dec_lzma2.c:349-374 | Refuses exactly a distance outside the history or the dictionary size; otherwise the history grows by the overlapping copy of as many bytes as the limit allows, and the rest is left for later. |
| Dictionary.Dict.Uncompressed | cube/packer/source/xz/xz_dec_lzma2.c:377-423 | The next input bytes go both to the history and to the output, as many as chunk, input and room allow; the position moves on by that many, around the ring in multi-call mode, and is at most the limit afterwards exactly if this does not carry it past the limit. |
| Dictionary.Dict.Flush | cube/packer/source/xz/xz_dec_lzma2.c:436-462 | All that was decoded since the last flush, and nothing else, is appended to the output; pos <= limit is kept. |
| Dictionary.Dict.Recent | cube/packer/source/xz/xz_dec_lzma2.c:436-462 | The bytes between start and pos are the last ones of the history. |
| Dictionary.Dict.SingleOutput | cube/packer/source/xz/xz_dec_lzma2.c:289-300 | In single-call mode the output is what was there at the reset followed by the whole history. |
| Lzma2.LimitPassed | cube/packer/source/xz/xz_dec_lzma2.c:27-37 | A concrete run, of the stream 01 00 00 07 in a decoder with its own dictionary of any size, after which pos = 1 and limit = 0: the invariant documented there does not hold between all operations (see above). |
| Lzma2.LimitPassedSingle | cube/packer/source/xz/xz_dec_lzma2.c:27-37 | The same run of a single-call decoder, which is what the program builds. |
| RangeDecoder.RangeDec.Bit | cube/packer/source/xz/xz_dec_lzma2.c:528-547 | The in-place step, under its input budget, is the reference step, and no byte past the buffer is read. The bit is 1 exactly if the code has reached the part of the range that is the probability in 2048ths; the probability moves towards the bit by a thirty-second of the way to that end, rounded down; no other probability changes. |
| RangeDecoder.RangeDec.BitTree | cube/packer/source/xz/xz_dec_lzma2.c:550-563 | Reads an n-bit symbol, highest bit first, as the reference does. |
| RangeDecoder.RangeDec.BitTreeReverse | cube/packer/source/xz/xz_dec_lzma2.c:566-581 | Adds an n-bit number, lowest bit first, to the destination. |
| RangeDecoder.RangeDec.DirectBits | cube/packer/source/xz/xz_dec_lzma2.c:584-596 | The mask arithmetic for equiprobable bits appends them to the destination. |
| LzmaDecoder.LzmaDec.SetProps | cube/packer/source/xz/xz_dec_lzma2.c:831-860 | Accepts exactly the valid properties bytes; then properties, state and all probabilities are those of a fresh decoder. |
| LzmaDecoder.LzmaDec.ResetState | cube/packer/source/xz/xz_dec_lzma2.c:798-824 | State, distances and probabilities are those of a fresh decoder. |
| LzmaDecoder.LzmaDec.LiteralProbs | cube/packer/source/xz/xz_dec_lzma2.c:603-609 | The literal coder picked by the ring position is the one the length of the unbounded history picks. |
| LzmaDecoder.LzmaDec.Literal | cube/packer/source/xz/xz_dec_lzma2.c:612-647 | Decodes and appends the reference's literal, with or without a match byte. |
| LzmaDecoder.LzmaDec.NewMatch | cube/packer/source/xz/xz_dec_lzma2.c:677-713 | Decodes length and distance of a new match as the reference does, whose state LzmaKinds.StateTells gives in terms of the kinds of symbols. |
| LzmaDecoder.LzmaDec.RepMatch | cube/packer/source/xz/xz_dec_lzma2.c:719-750 | Decodes a repeated match and reorders the four distances as the reference does. |
| LzmaDecoder.LzmaDec.DecodeSymbol | cube/packer/source/xz/xz_dec_lzma2.c:753-780 | One pass of the loop decodes one reference symbol within its twenty bytes of input. |
| LzmaDecoder.LzmaDec.OneSymbol | cube/packer/source/xz/xz_dec_lzma2.c:753-780 | One pass is one step of the reference run, or the proof that this step fails; a state other than literal implies that rep0 reaches into the history. |
| LzmaDecoder.LzmaDec.LzmaMain | cube/packer/source/xz/xz_dec_lzma2.c:753-792 | The loop takes some number of steps of the reference run, stops only at the output limit or the input limit, and fails only where the run fails. |
| LzmaDecoder.SymbolNormalized | cube/packer/source/xz/xz_dec_lzma2.c:782-789 | Normalising once more before returning changes nothing for the symbols that follow. |
| Lzma2Input.Feeder.RunOn | cube/packer/source/xz/xz_dec_lzma2.c:878-957 | Decoding from any buffer that holds a stretch of the chunk takes steps of the one run over the chunk, and never reads outside the buffer. |
| Lzma2Input.Feeder.TopUp | cube/packer/source/xz/xz_dec_lzma2.c:884-904 | At most 63 bytes are used of the small buffer, and decoding starts only with a whole symbol or the chunk's end in it. |
| Lzma2Input.Feeder.ToInput | cube/packer/source/xz/xz_dec_lzma2.c:911-925 | Afterwards either old bytes are left at the front of the small buffer, or the caller's buffer takes over at the right place; compressed never goes below what is buffered. |
| Lzma2Input.Feeder.FromInput | cube/packer/source/xz/xz_dec_lzma2.c:927-945 | Direct decoding stops early enough for a whole symbol and consumes what it decoded. |
| Lzma2Input.Feeder.Save | cube/packer/source/xz/xz_dec_lzma2.c:947-954 | The few bytes left over are kept for the next call. |
| Lzma2Input.Feeder.Feed | cube/packer/source/xz/xz_dec_lzma2.c:878-957 | However the chunk is cut into input buffers, each call takes further steps of the one run over the whole chunk, or the chunk is corrupt; it makes progress unless it needs more input. |
| Lzma2Reference.InitNext | cube/packer/source/xz/xz_dec_lzma2.c:480-491 | Five bytes shifted in one at a time in 32 bits are the last four of them. |
| Lzma2Reference.ChunkOfBody | cube/packer/source/xz/xz_dec_lzma2.c:963-1138 | An LZMA chunk with a good header is decided by its body alone, if all of it is there. |
| Lzma2Reference.BodyAccepted | cube/packer/source/xz/xz_dec_lzma2.c:1111-1120 | A run that ends at the declared size with all input used and nothing over is what the chunk means. |
| Lzma2Reference.BodyRejected | cube/packer/source/xz/xz_dec_lzma2.c:1111-1120 | A run that turns corrupt, passes the size or has input left at the size means that no run of the chunk is accepted. |
| Lzma2Reference.StandsAtTarget | cube/packer/source/xz/xz_dec_lzma2.c:1111-1120 | At the declared size the verdict is fixed: accepted exactly if everything was consumed and the code is 0. |
| Lzma2Reference.Settles | cube/packer/source/xz/xz_dec_lzma2.c:963-1138 | Once decided, the verdict on a stream stays, however many more chunks are looked at. |
| Lzma2Reference.OneVerdict | cube/packer/source/xz/xz_dec_lzma2.c:963-1138 | A stream has one output, one end, and is not both accepted and refused. |
| Lzma2Reference.StillToCome | cube/packer/source/xz/xz_dec_lzma2.c:963-1138 | Before the end of a well-formed stream the next chunk ends, with all its output, before the stream does; or there is only the end marker. |
| Lzma2.Lzma2Dec.ReadControl | cube/packer/source/xz/xz_dec_lzma2.c:968-1038 | Control bytes are taken and refused exactly as the format says; no LZMA chunk begins before a dictionary reset and properties. |
| Lzma2.Lzma2Dec.ReadInit | cube/packer/source/xz/xz_dec_lzma2.c:480-491 | The first five bytes may come over several calls. |
| Lzma2.Lzma2Dec.FeedPass | cube/packer/source/xz/xz_dec_lzma2.c:1105-1109 | The decoder is never asked for more than the chunk still declares. |
| Lzma2.Lzma2Dec.FlushPass | cube/packer/source/xz/xz_dec_lzma2.c:1111 | What was decoded is handed out, in order and once. |
| Lzma2.Lzma2Dec.FinishChunk | cube/packer/source/xz/xz_dec_lzma2.c:1113-1120 | A chunk is finished only with all declared bytes consumed and produced, no match pending and code 0; otherwise no decoding of it is right. |
| Lzma2.Lzma2Dec.RunPass | cube/packer/source/xz/xz_dec_lzma2.c:1094-1129 | Every pass that goes round again has consumed input or produced output; a pass that returns waits for input or for room. |
| Lzma2.Lzma2Dec.CopyPass | cube/packer/source/xz/xz_dec_lzma2.c:1131-1138 | An uncompressed chunk is handed out as it is, over any number of calls. |
| Lzma2.Lzma2Dec.Pass | cube/packer/source/xz/xz_dec_lzma2.c:963-1138 | One pass of the state machine keeps the invariant that ties every field to the reference decoder over the whole stream. |
| Lzma2.Lzma2Dec.DecodeMore | cube/packer/source/xz/xz_dec_lzma2.c:963-1138 | Terminates. However the stream is cut into input buffers and whatever room the outputs have, what is written is the next part of the one output of the stream; end means the stream is accepted with exactly this output and length, an error means it is refused, and all input taken with room left means it is cut short. It comes to the end exactly when the input holds what is left of a well-formed stream and there is room for the rest of its text, also if there is room for just that. |
| Lzma2.Lzma2Dec.CutShort | cube/packer/source/xz/xz_dec_lzma2.c:1122-1129 | A decoder that has all of the stream and waits for more shows that the stream is not a valid one. |
| Lzma2.Lzma2Dec.StillShort | cube/packer/source/xz/xz_dec_lzma2.c:1105-1129 | Wherever a decoder of a well-formed stream stands, some of the stream is not taken, and inside the data of a chunk some of the text is not produced. |
| Lzma2.Lzma2Dec.PassElsewhere | cube/packer/source/xz/xz_dec_lzma2.c:1094-1129 | A single-call decoder with a full dictionary, given room elsewhere, decodes nothing in an LZMA chunk: a pass saves at most the caller's last few bytes. The loop goes on exactly if the input holds the rest of the chunk or, with the bytes saved before, at least one symbol's 21 bytes; it still does after the pass, so that the loop never ends. |
| Lzma2.Lzma2Dec.CopyElsewhere | cube/packer/source/xz/xz_dec_lzma2.c:377-423 | In a chunk stored as it is, with input left, a pass of the copy loop then leaves everything as it is. |
| Lzma2.Lzma2Dec.RunElsewhere | cube/packer/source/xz/xz_dec_lzma2.c:963-1138 | Such a call returns exactly if there is no such input, and then all input was taken. |
| Lzma2.Lzma2Dec.WholeStuck | cube/packer/source/xz/xz_dec_lzma2.c:1105-1138 | With all of a well-formed stream given, a decoder that has stopped before its end has no room left, and input that it would never take. |
| Lzma2.DictSizes | cube/packer/source/xz/xz_dec_lzma2.c:1165-1172 | The size byte stands for 4 KiB, then 6 KiB, twice as much with every second step, up to 3 GiB: strictly growing, all multiples of sixteen. |
| Lzma2.Create | cube/packer/source/xz/xz_dec_lzma2.c:1140-1198 | A size byte above 39 is refused, then a size above the limit; otherwise the decoder is ready for the stream. |
| Lzma2.Lzma2Dec.Multi | cube/packer/source/xz/xz_dec_lzma2.c:1140-1198 | A decoder with its own ring dictionary, of any size that Create may ask for, starts out in the state of the reference. |
| Lzma2.Lzma2Dec.Single | cube/packer/source/xz/xz_dec_lzma2.c:1140-1198 | A decoder whose dictionary is the output buffer starts out in the state of the reference, with any dictionary size. |
| Lzma2Encoding.HeaderReads | cube/packer/source/xz/xz_dec_lzma2.c:968-1080 | The header of an LZMA chunk reads back: sizes, properties and resets are those the encoder put there. |
| Lzma2Encoding.SymbolsRoundTrip | cube/packer/source/xz/xz_dec_lzma2.c:963-1138 | A chunk of symbols decodes to the encoder's text and leaves the decoder in the encoder's state. |
| Lzma2Encoding.PlainRoundTrip | cube/packer/source/xz/xz_dec_lzma2.c:963-1138 | So does a chunk stored as it is. |
| Lzma2Encoding.StreamRoundTrip | cube/packer/source/xz/xz_dec_lzma2.c:963-1138 | Whatever chunks an encoder writes, with any resets and properties it chooses, and whatever bytes follow, the stream is accepted with exactly the encoder's text and length. |
| PowerPc.MovedAndBack | cube/packer/source/xz/xz_dec_bcj.c:169-176 | Subtracting a position from a branch target undoes adding it, modulo 2^26, and keeps the word a branch. |
| PowerPc.PositionWraps | cube/packer/source/xz/xz_dec_bcj.c:170-173 | The 32-bit position gives the same filtered word as the unbounded one. |
| PowerPc.PassInverse | cube/packer/source/xz/xz_dec_bcj.c:161-180 | Over every byte string, filtering one way undoes filtering the other way. |
| PowerPc.GroupMoves | cube/packer/source/xz/xz_dec_bcj.c:161-180 | Of four bytes just a branch with link and without the absolute bit is changed: it stays one, and the position is added to its target or taken away, modulo 2^26. |
| PowerPc.PassSplit | cube/packer/source/xz/xz_dec_bcj.c:161-180 | Data may be filtered in parts, if all but the last are whole words. |
| PowerPc.PassTail | cube/packer/source/xz/xz_dec_bcj.c:161-180 | The last size mod 4 bytes are untouched. |
| Bcj.BcjDec.Apply | cube/packer/source/xz/xz_dec_bcj.c:493-550 | Filters in place just the whole words of a part of a buffer, leaves the rest of the buffer alone and moves the position on. |
| Bcj.BcjDec.Flush | cube/packer/source/xz/xz_dec_bcj.c:557-568 | Filtered bytes go to the caller as far as there is room; nothing is lost or repeated. |
| Bcj.FilterMore | cube/packer/source/xz/xz_dec_bcj.c:615-640 | Of the bytes after those filtered, whole words are final and the others wait for more. |
| Bcj.BcjDec.Direct | cube/packer/source/xz/xz_dec_bcj.c:596-640 | The way through the caller's buffer, for a decoder with its own dictionary: what is handed out continues the filtered output. |
| Bcj.BcjDec.Through | cube/packer/source/xz/xz_dec_bcj.c:642-676 | The way through the small buffer, which it fills unless the input ends, for a decoder with its own dictionary. |
| Bcj.BcjDec.FilterOn | cube/packer/source/xz/xz_dec_bcj.c:575-683 | For any sequence of input and output buffer sizes, what is handed out is the next part of one pass of the filter over the whole LZMA2 output, and at the end it is all of it. It comes to the end exactly when the input holds what is left of a well-formed stream and there is room for the rest of its text; all input taken with room left means the stream is refused. |
| Bcj.BcjDec.FilterSingle | cube/packer/source/xz/xz_dec_bcj.c:575-683 | The single call, for every input and room. It comes to the end exactly when it is given all of a well-formed stream and room for its text, and then the output is the filtered text. Without the end, it never returns exactly if the room is not a multiple of four, all of it was filled and there is input the decoder can never take; for all of a well-formed stream this means: exactly if the room is too small and not a multiple of four. When it returns early, the output is the filtered whole words. Errors mean refusal. |
| Bcj.BcjDec.AskAgain | cube/packer/source/xz/xz_dec_bcj.c:642-676 | The second decoding, into the small buffer: it returns exactly if there is no input that the decoder can never take, and then hands out nothing more. |
| Bcj.ByLength | cube/packer/source/xz/xz_dec_bcj.c:575-683 | For all of a stream, the outcome is decided by the length of its text and the room. |
| Bcj.NoReturn | cube/packer/source/xz/xz_dec_bcj.c:642-656 | The failing input: the stream 01 00 04, any five bytes and 00, with room for three. |
| Bcj.InPlace | cube/packer/source/xz/xz_dec_bcj.c:616 | Of the dictionary alone: after filtering in place it is still the window on its history exactly when nothing was changed. What the call does then is Bcj.BcjDec.FilterSingle. |
| Bcj.BranchMoves | cube/packer/source/xz/xz_dec_bcj.c:161-180 | There is output that filtering changes. |
| Bcj.Unpack | cube/packer/source/main.c:32-41 | One call with the output as dictionary and room for the data: whatever data was filtered and packed by an encoder as one LZMA2 stream is back in the buffer, whatever follows the stream. |
| Bcj.DataRoundTrip | cube/packer/source/xz/xz_dec_bcj.c:575-683 | Data filtered and packed by an encoder comes back unpacked and filtered. |
| Crc32.StepLinear | cube/packer/source/xz/xz_crc32.c:34-42 | One division step is linear. |
| Crc32.BitsAtOnce | cube/packer/source/xz/xz_crc32.c:34-42 | Dividing by n bits one after the other is n steps with all of them added first. |
| Crc32.TableStep | cube/packer/source/xz/xz_crc32.c:51-54 | One table step on a byte is eight steps of the polynomial division, with the message bits lowest first. |
| Crc32.DivideAppend | cube/packer/source/xz/xz_crc32.c:48-58 | Division of a message goes on from the remainder of its first part. |
| Crc32.CrcAppend | cube/packer/source/xz/xz_crc32.c:48-58 | The check value of two parts is that of the second continued from that of the first. |
| Crc32.BurstDetected | cube/packer/source/xz/xz_crc32.c:48-58 | Messages that differ only within 32 consecutive bits never have the same check value. |
| Crc32.Table.constructor | cube/packer/source/xz/xz_crc32.c:29-46 | Every table entry is eight division steps of its index. |
| Crc32.Table.Update | cube/packer/source/xz/xz_crc32.c:48-58 | The table-driven loop computes the check value as defined by bit-at-a-time division, for every buffer and start; which remainder that is, CrcDivision.CrcIsRemainder says. |
| CrcDivision.Coefficients | cube/packer/source/xz/xz_crc32.c:31 | The constant of the division step has just the coefficients of the polynomial of section 3.2.9 of IEEE 802.3: x^26, x^23, x^22, x^16, x^12, x^11, x^10, x^8, x^7, x^5, x^4, x^2, x and 1. |
| CrcDivision.DivideIsLong | cube/packer/source/xz/xz_crc32.c:34-42 | For every message and start the reflected steps give the remainder of long division, coefficient by coefficient, of the message with the start added to its first 32 coefficients and 32 zeros behind it. |
| CrcDivision.CrcIsRemainder | cube/packer/source/xz/xz_crc32.c:48-58 | The check value is the complement of the remainder of the message with 32 zeros behind it and its first 32 bits complemented. |
| CrcExamples.CheckValue | cube/packer/source/xz/xz_crc32.c:48-58 | The check value of the nine digits from 1 to 9 is CBF43926. |
| Vli.RoundTrip | cube/packer/source/xz/xz_stream.h:42-48 | Every value below 2^63 is read back, whatever follows it. |
| Vli.OneEncoding | cube/packer/source/xz/xz_dec_stream.c:186-215 | Nothing but the one shortest encoding of such a value is accepted. |
| Vli.FeedParts | cube/packer/source/xz/xz_dec_stream.c:186-215 | The bytes may come in any number of parts. |
| Vli.FeedUsed | cube/packer/source/xz/xz_dec_stream.c:186-215 | A decision rests on the bytes consumed alone. |
| XzIndex.IndexDec.DecVli | cube/packer/source/xz/xz_dec_stream.c:186-215 | The shifting loop, resumed at any byte, does what the reference does, and takes no byte more. |
| XzIndex.IndexDec.CountBlock | cube/packer/source/xz/xz_dec_stream.c:270-288 | The running hash and sums are those of the blocks so far; the sizes come from XzBlock.BlockDec.DecBlock. |
| XzBlock.BlockDec.DecBlock | cube/packer/source/xz/xz_dec_stream.c:229-296 | Over any number of calls the two sizes are the bytes taken and handed out, and the check value is that of the latter. At the end the stream is well formed with the sizes declared, and the Index is to list exactly header, bytes taken, check and size of the text; an error is returned only if no well-formed text of the declared sizes is in the stream. |
| XzBlock.BlockDec.DecBlockSingle | cube/packer/source/xz/xz_dec_stream.c:229-296 | The one call of a single-call decoder, with the filter or without: it comes to the end exactly when it is given all of a well-formed stream with the sizes declared and room for its text; then the output is the Block's data, the check value is that of the data, and the Index is to list the Block. An error means that there is no such stream, and for all of such a stream the outcome is known. |
| XzIndex.HashSums | cube/packer/source/xz/xz_dec_stream.c:283-288 | The sums in the hash are those of all the records, modulo 2^64. |
| CrcExamples.HashLayout | cube/packer/source/xz/xz_dec_stream.c:19-23 | An example of what a hash is taken over: two 64-bit sums and the check value, highest bytes first, and four zero bytes. |
| XzIndex.HashWhole | cube/packer/source/xz/xz_dec_stream.c:283-288 | What the hash is taken over shows both sums and the check value so far. |
| XzIndex.IndexDec.StartIndex | cube/packer/source/xz/xz_dec_stream.c:609-619 | The indicator byte is part of what size and CRC32 will count. |
| XzIndex.IndexDec.UpdateIndex | cube/packer/source/xz/xz_dec_stream.c:299-304 | Size and CRC32 catch up with every byte taken. |
| XzIndex.IndexDec.ReadInteger | cube/packer/source/xz/xz_dec_stream.c:314-331 | An integer may end anywhere in an input buffer; all bytes before are whole integers. |
| XzIndex.IndexDec.DecIndex | cube/packer/source/xz/xz_dec_stream.c:314-358 | Ends only with as many records as there were blocks, and fails only where no right Index has these bytes. |
| XzIndex.IndexDec.Padding | cube/packer/source/xz/xz_dec_stream.c:706-726 | Ends only when the bytes taken are exactly the encoding of as many records with the same sums and hash, padded with zeros to a multiple of four. |
| XzIndex.IndexDec.CheckCrc | cube/packer/source/xz/xz_dec_stream.c:365-383 | Accepts exactly the four bytes of the CRC32, lowest first, over any number of calls. |
| XzIndex.IndexDec.DecodeIndex | cube/packer/source/xz/xz_dec_stream.c:697-733 | For any split of the input: once the CRC32 field is reached, record count, both sums and hash are those of the blocks decoded, size is the number of Index bytes and a multiple of 4, and crc is their CRC32; accepted only with that CRC32; refused only if no Index that lists the blocks has these bytes. |
| XzIndex.RecordsUnique | cube/packer/source/xz/xz_dec_stream.c:314-358 | No list of records starts with the encoding of another one. |
| XzIndex.SameInteger | cube/packer/source/xz/xz_dec_stream.c:186-215 | If one of two strings that start with integers is a prefix of the other, the integers are the same. |
| XzIndex.IndexDec.Denied | cube/packer/source/xz/xz_dec_stream.c:314-358 | Where the decoder has refused, the input holds no Index of the blocks with its CRC32. |
| XzIndex.IndexDec.Unfinished | cube/packer/source/xz/xz_dec_stream.c:697-733 | Nor where it waits for more than all of the input. |
| XzIndex.SameList | cube/packer/source/xz/xz_dec_stream.c:314-358 | Bytes that begin with a list of records agree with the Index of no other list of that length. |
| XzHeader.LittleRead | cube/packer/source/xz/xz_dec_stream.c:451-457 | Four bytes, lowest first, are a number below 2^32 exactly if they are its four bytes. |
| XzHeader.HeadRead | cube/packer/source/xz/xz_dec_stream.c:470-568 | Every Block Header an encoder may write is read back: both optional sizes, the filters and the dictionary size. |
| XzHeader.HeadOnly | cube/packer/source/xz/xz_dec_stream.c:470-568 | Whatever is read as a Block Header is the encoding of what was read, with its padding. |
| XzStream.XzDec.DecStreamHeader | cube/packer/source/xz/xz_dec_stream.c:407-440 | Accepts exactly the two headers that are supported, and remembers which. |
| XzStream.XzDec.DecStreamFooter | cube/packer/source/xz/xz_dec_stream.c:443-467 | Accepts exactly the footer for the size of the Index and the check of the header. |
| XzStream.XzDec.DecFields | cube/packer/source/xz/xz_dec_stream.c:479-566 | The resumable integer decoder run over the header's bytes, and the filters, read what the reference reads. |
| XzStream.XzDec.DecBlockHeader | cube/packer/source/xz/xz_dec_stream.c:470-568 | Accepts exactly what an encoder may write, CRC32 and padding included, and remembers it. |
| XzStream.SameBlock | cube/packer/source/xz/xz_dec_stream.c:609-695 | A Block is determined by where it begins. |
| XzStream.XzDec.OneBlock | cube/packer/source/xz/xz_dec_stream.c:609-695 | Header, LZMA2 stream, padding and check value: comes to the end exactly on a well-formed Block with room for its data, which is appended to the output, and otherwise comes out as the Block's filter and the room say. |
| XzStream.XzDec.DecEnd | cube/packer/source/xz/xz_dec_stream.c:697-744 | Comes to the end exactly on an Index that lists as many Blocks with the same sums and hash, its CRC32 and the right footer. |
| XzStream.XzDec.DecMain | cube/packer/source/xz/xz_dec_stream.c:570-753 | Over a whole stream: it comes to the end only for header, Blocks, Index and footer, with the data of the Blocks as output, and for every such stream the outcome is that of the first Block without room, or the end. |
| XzStream.OneStream | cube/packer/source/xz/xz_dec_stream.c:570-753 | There is one way to read a stream. |
| XzStream.RoomDecides | cube/packer/source/xz/xz_dec_stream.c:570-753 | The outcome is the end exactly if there is room for the data of all Blocks. |
| XzStream.Run | cube/packer/source/xz/xz_dec_stream.c:780-814 | The single call comes to the end if and only if the input begins with a well-formed stream for whose data there is room, and then the output is that data; otherwise it is an error that leaves the positions alone, or the case that never returns. |
| XzStream.EncodedIsXz | cube/packer/source/xz/xz_dec_stream.c:570-753 | Whatever Blocks an encoder writes, with padding, check values, Index and footer, the stream is well formed, whatever follows it, and has the data that was packed. |
| XzStream.UnpackFile | cube/packer/source/main.c:92-101 | The program: given a file an encoder wrote and room for its data, the call comes to the end with that data in the buffer. |
| XzExample.FileIsXz | cube/packer/source/xz/xz_dec_stream.c:407-753 | Sixty-four literal bytes, nine bytes of code stored with the branch filter and a CRC32, are a well-formed stream with that code as data: magic bytes, flags, filter IDs, sizes, padding and byte order are those of the format. |
| XzExample.HeaderBytes | cube/packer/source/xz/xz_dec_stream.c:407-440 | The two Stream Headers that are supported, byte by byte. |
| XzExample.UnpackExample | cube/packer/source/xz/xz_dec_stream.c:780-814 | The program unpacks these bytes into those nine. |
| RequestQueue.RoomForOneMore | cube/patches/gcloader/gcloader.c:261-281 | If no client has two requests waiting, one slot more than clients leaves room for a request of any client that has none, also while the slot of the request just finished is still taken. |
| RequestQueue.AllFinished | cube/patches/gcloader/gcloader.c:183-252 | When every slot is free, every accepted request has been completed exactly once. |
| RequestQueue.PlaceAccounted | cube/patches/gcloader/gcloader.c:261-281 | Accepting a request keeps every request either waiting once or completed once. |
| GcLoader.Loader.ReadQueued | cube/patches/gcloader/gcloader.c:92-181 | One request is under way at most and none waits without one; a request for the kept sector is finished without the device, and then the lowest that waits is under way; a write gives up the kept sector before it is sent. |
| GcLoader.Loader.DoneQueued | cube/patches/gcloader/gcloader.c:183-252 | The callback is called once, with the bytes or the word the request asked for in its buffer, or no length for a write or fragment list that failed, and then the lowest waiting request is started; a write goes through both its commands first. Only a successful command for a disc's number or fragments changes the current disc. Terminates for any further requests its callbacks make. |
| GcLoader.Loader.Callback | cube/patches/gcloader/gcloader.c:239 | Clients that have no request waiting may ask for more from a callback; with one slot more than clients every one of these requests is accepted, in every run. |
| GcLoader.Loader.EverythingFinished | cube/patches/gcloader/gcloader.c:241-251 | When nothing is under way, every request ever accepted has been finished, and exactly once. |
| GcLoader.Loader.Release | cube/patches/gcloader/gcloader.c:241-251 | The lowest busy slot is next; nothing is under way only if all are free. |
| GcLoader.Loader.PushQueue | cube/patches/gcloader/gcloader.c:261-281 | Refused exactly when every slot is taken, and so never with one slot more than clients of one request each; from a callback it only waits. |
| GcLoader.Loader.Interrupt | cube/patches/gcloader/gcloader.c:254-259 | In every run each callback found the disc's or the card's bytes or the device's word, or was told of a failure, requests complete once and in the order chosen, and nothing but a write the device answers with zero changes the card. What the device answers is given beforehand, and decides what is told. |
| GcLoader.Loader.SendFrags | cube/patches/gcloader/gcloader.c:201-221 | The device is told of the fragments in order, up to the first that it answers with zero; the file of that one is the disc from then on, and if there is none the disc stays. |
| GcLoader.Loader.ReadWriteAsync | cube/patches/gcloader/gcloader.c:283-299 | Whatever the alignment, the request made is for card bytes from the given place on, no more than asked for and at least one if any; a write is for the sector the offset lies in. |
| GcLoader.WrittenReads | cube/patches/gcloader/gcloader.c:153-160 | A written sector reads back, and every other sector is as before. |
| DiscRead.Drive.Perform | cube/patches/gcloader/gcloader.c:329-354 | A new transfer has nothing done and everything left, and the device is asked for all of it. |
| DiscRead.Drive.Schedule | cube/patches/gcloader/gcloader.c:309-327 | Reports completion when nothing is left to read; otherwise asks the device exactly once, for what is left, and waits for it exactly if the device accepts. |
| DiscRead.Drive.Deliver | cube/patches/gcloader/gcloader.c:309-327 | Through any sequence of answers to the latest request offset + length stays the transfer's end, buffer and offset advance together, each byte arrives once in its place and no other byte of memory changes; what is left is asked for again, and completion is reported once, when all bytes are there. |
| DiscRead.Drive.Complete | cube/patches/gcloader/gcloader.c:309-354 | If the device accepts every request and answers with a byte or more, the transfer is reported after no more completions than it has bytes, with all of them in place. |
| FspClient.Client.GetFile | cube/patches/bba/tcpip.c:183-229 | Every datagram has a new sequence number and asks for no more than fits one. |
| FspClient.Client.ReadQueued | cube/patches/bba/tcpip.c:231-250 | The request sent is for the current entry from its offset on. |
| FspClient.Client.PopQueue | cube/patches/bba/tcpip.c:252-270 | Something that waits is under way afterwards: with more than two slots the lowest read that stays in one sector, if there is one, otherwise the lowest. Nothing is sent for an empty queue. |
| FspClient.Client.PushRead | cube/patches/bba/tcpip.c:288-309 | Refused exactly when every slot is taken, with nothing changed. |
| FspClient.Client.DoneQueued | cube/patches/bba/tcpip.c:272-286 | The callback is called once per read, and only when all of it has come. |
| FspClient.Client.Input | cube/patches/bba/tcpip.c:311-350 | For any replies to any requests ever sent, lost, repeated or reordered but less than 2^16 requests old: only the reply to the request under way is taken, and of it all whole cache lines of 32 bytes that were asked for, by which the entry's offset moves on; each entry's buffer holds its file's bytes up to its offset, the last bytes finish the read, and every callback found exactly the file's bytes it asked for. |
| FspClient.Client.OneFewer | cube/patches/bba/tcpip.c:330-350 | A reply that brings all that was asked for, in whole cache lines, leaves one reply less to go, and finishes the read exactly if it was the last. |
| FspClient.Client.Serve | cube/patches/bba/tcpip.c:183-350 | A read of whole cache lines that is answered each time with all that was asked for is finished after its length divided by the room of a datagram, rounded up. |
| FspClient.Client.Alarm | cube/patches/bba/tcpip.c:231-250 | A second without a reply sends the same request once more. |
| FspClient.Client.EverythingFinished | cube/patches/bba/tcpip.c:252-286 | When nothing is under way, every read ever accepted has been finished, and exactly once. |
| FspClient.ArrivedBacked | cube/patches/bba/tcpip.c:325-343 | Bytes counted first and copied later complete the entry's buffer and touch no other one. |
| Fat.MasksDivide | cube/patches/stub/pff.c:927-974 | Masking with a power of two less one, or its complement, is the remainder by that power, or what is left of it, on the numbers the words stand for. |
| Fat.File.GetFat | cube/patches/stub/pff.c:431-471 | Returns the link of the cluster on all three kinds of table, and the failure value only on a fault, outside the table or for an impossible cluster. |
| Fat.File.GetFat12 | cube/patches/stub/pff.c:444-454 | Twelve bits that lie across two sectors are put together right. |
| Fat.File.ClusterStart | cube/patches/stub/pff.c:480-490 | The sector is 0 exactly for a cluster that does not exist. |
| Fat.File.EnterSector | cube/patches/stub/pff.c:942-956 | At a sector boundary the current cluster becomes the chain element of the position. |
| Fat.File.ReadPiece | cube/patches/stub/pff.c:938-971 | One pass delivers the file's next bytes, up to the end of the sector. |
| Fat.File.Read | cube/patches/stub/pff.c:927-974 | After any sequence of seeks and reads, delivers content[fptr..min(fptr + n, fsize)); fails only on a fault of the card or an ill-formed chain, and never if the answers of the card given beforehand hold no fault and the chain is sound. |
| Fat.File.Follow | cube/patches/stub/pff.c:1078-1086 | Following links from any chain element ends at the one that holds the target. |
| Fat.File.Seek | cube/patches/stub/pff.c:1054-1094 | Whether the shortcut from the current cluster is taken or the chain is followed from its start, the file ends up in the state of that position: fptr is min(target, size), currClust the chain element of the byte before, dsect the sector of the next. |
| SdCard.Driver.Read | cube/patches/sdgecko/sd.c:364-422 | For any mix of reads and writes, the bytes returned are the card's, whatever sector was kept or stream left open; a stream is opened only for a sector that is neither kept nor next; while the bus is selected nothing is read and nothing changes. |
| SdCard.Driver.Write | cube/patches/sdgecko/sd.c:364-422 | Writes the sector exactly if the card accepts it, and otherwise leaves the card unchanged; a kept copy of it is given up and an open stream closed first, unless the bus is selected, when nothing changes. |
| SdCard.Driver.EndRead | cube/patches/sdgecko/sd.c:424-435 | A stop command is sent exactly when a stream is open. |
| Fragments.FragGet | cube/patches/base/frag.c:56-78 | Finds the first listed fragment covering the offset, and the largest size up to what was asked for over which it stays the first one. |
| Fragments.Skip | cube/patches/base/frag.c:63-71 | A fragment that lies ahead limits the size to where it begins; one that lies behind does not, because the wrapped distance is too large to matter. |
| Fragments.FragRead | cube/patches/base/frag.c:155-163 | Each byte delivered is that of the first listed fragment covering its offset: as many whole cache lines as the device answers with, up to where another fragment comes first; none exactly if no fragment of this device comes first or the device fails. |
| Fragments.FragReadComplete | cube/patches/base/frag.c:124-135 | Terminates; under any short reads of whole cache lines the bytes are those of the overlay, short of the whole only if the device fails or where no fragment of this device comes first. |
| Fifo.Ring.Push | cube/patches/base/audio.c:75-84 | Appends, or drops the sample exactly when there is no room. |
| Fifo.Ring.Pop | cube/patches/base/audio.c:64-73 | Takes the oldest sample, or nothing when empty. |
| Fifo.Ring.Write | cube/patches/base/fifo.c:65-78 | Appends all, across the end of the buffer. |
| Fifo.Ring.Read | cube/patches/base/fifo.c:50-63 | Takes the oldest ones, across the end of the buffer. |
| Fifo.RingedPush | cube/patches/base/audio.c:75-84 | Storing behind the used part appends to the contents, wrapped or not. |
| Adpcm.ClampBits16 | cube/patches/base/audio.c:26-32 | The bit tricks of the 16-bit clamp clamp the two's complement number of every 32-bit word. |
| Adpcm.ClampBits22 | cube/patches/base/audio.c:35-41 | So do those of the 22-bit clamp. |
| Words.ValMask | cube/patches/stub/pff.c:950 | A mask of low bits is a remainder of the number a word stands for. |
| Words.ValOrder | cube/patches/base/audio.c:26-41 | Words compare as the numbers they stand for. |
| Adpcm.HistoryStays | cube/patches/base/audio.c:43-62 | For every header, nibble and bounded history the next history is bounded, no intermediate result overflows 32 bits, and the sample fits 16 bits. |
| Adpcm.DecodeIs | cube/patches/base/audio.c:43-62 | For every header, nibble and history: the filter of 0 and 0, 60 and 0, 115 and 52 or 98 and 55 64ths of the two latest values is rounded and kept to 22 bits, the signed nibble scaled by the header's shift is added, and the sample is that, rounded and kept to 16 bits. |
| Adpcm.BlocksStay | cube/patches/base/audio.c:92-102 | From silence on, whatever the data, the history stays bounded and every sample fits. |
| Adpcm.Decoder.DecodeAll | cube/patches/base/audio.c:92-102 | All samples of all blocks go to the fifo, in order, when there is room for them. |
| DiscAudio.Streamer.FillBuffer | cube/patches/base/emulator.c:558-579 | At most one read is submitted, and only with room for all 448 samples it will bring. The device may refuse it, or complete it and further ones inside the call; then the output goes on by as many blocks, and the flag is left set with no read under way exactly if the last of them left nothing playing, too little room or a refused read. Its answers are given beforehand: one that accepts every read refuses none, and one that completes none inside the call is busy exactly if it accepts. |
| DiscAudio.Streamer.Submit | cube/patches/sdgecko/sd.c:265-268 | A device that completes reads while they are submitted. |
| DiscAudio.Streamer.ReadDone | cube/patches/base/emulator.c:567-574 | Data read before a flush never enters the fifo; otherwise no sample is dropped, and the fifo and the position go on by this block and as many as complete inside the call. |
| DiscAudio.Streamer.DecodeBuffer | cube/patches/base/emulator.c:539-556 | The position moves in blocks inside the track and wraps to the next track exactly at its end. |
| DiscAudio.Streamer.PlayedOn | cube/patches/base/emulator.c:539-556 | Decoding on from a position is decoding the longer stretch. |
| DiscAudio.Streamer.WithinTrack | cube/patches/base/emulator.c:539-556 | Short of the end of the track any number of blocks on are the track's decoding from silence, continued. |
| DiscAudio.Streamer.Start | cube/patches/base/emulator.c:719-745 | Starts, queues a next track or asks to stop, and leaves what is playing alone; a track that starts may already go on by blocks that complete inside the call. |
| DiscAudio.Streamer.Cancel | cube/patches/base/emulator.c:746-759 | What is buffered is dropped and what is under way will be. |
| EthernetRing.Mac.Receive | cube/patches/base/emulator_eth.c:60-101 | Unread pages are never written; a frame is committed only if it fits the free pages, reads back whole across the wrap, and its header of two 12-bit fields links to the page after it; otherwise the write pointer stays. |
| EthernetRing.Mac.Lay | cube/patches/base/emulator_eth.c:75-88 | After k pages the first bytes of the frame lie in them in order, and no other page was touched. |

## Left out

Parts of the repository:

- The user interface, settings, HTTP and wiiload servers, video modes and file management: plumbing over libraries.
- Memory-mapped registers, busy waits, DMA alignment, interrupt routing and timing estimates: devices are abstract steps.
- In the XZ code: MicroLZMA, dynamic allocation of the dictionary, concatenated streams, CRC64 and the filters for other
  processors, none of which is built here.
- Skipping of unknown checks.
- Using a decoder object for a second Block, after `xz_dec_lzma2_reset` and `xz_dec_bcj_reset`.
- `xz_dec_run` in multi-call mode, with its handling of calls without progress.
- FAT: mounting, directories and names, and writing (disabled in the configuration).
- SD and MMC start-up, and the asynchronous variant of the SD driver; its queue has the shape of `RequestQueue`.
- The IP, UDP and ARP layers and checksums of the network client, and waiting for the EXI bus to be free.
- The start-up commands of the GC Loader outside its queue, and `change_disc`.
- `mix_samples` and its rate conversion, and the rest of the adapter emulated by `emulator_eth.c`.

What the models do not capture:

- Bcj.BcjDec.FilterOn: is about a decoder with its own dictionary, as are Bcj.BcjDec.Direct and Bcj.BcjDec.Through; the single call the program makes is Bcj.BcjDec.FilterSingle.
- XzStream.Run: the kinds of errors are one, and so are a lack of input and of room; sizes are unbounded, where the code's are 64 bits wide; every Block has decoder objects of its own.
- Lzma2.Lzma2Dec.Multi: one object stands for one Block; Lzma2.Create models the size byte and its refusals, not a second use of the same memory.
- Lzma2.Lzma2Dec.Single: any dictionary size is allowed, which is more than the size byte can say.
- Dictionary.Dict.Uncompressed: input and output are separate buffers; decompression in place over its own input is not modelled.
- Lzma2Input.Feeder.Feed: the zeroing of unused bytes of the small buffer is not modelled; the result is proved not to depend on them.
- XzIndex.HashSums: the hash runs over the structure as the target lays it out, highest byte first with four zero bytes of padding; no other layout is modelled.
- XzIndex.IndexDec.DecodeIndex: sums are 64 bits wide; block sizes beyond 2^63 cannot be listed in an Index and are refused there, as in the code.
- XzBlock.BlockDec.DecBlock: for a decoder with its own dictionary and the filter active; sizes are unbounded, where the code's are 64 bits wide, also in XzBlock.BlockDec.DecBlockSingle.
- FspClient.Client.Input: a reply to a request 2^16 or more requests ago could be taken for a new one by the code too, and is excluded; buffers of the reads in the queue are apart.
- Fat.File.Read: masks by powers of two are written as remainders, which Fat.MasksDivide justifies.
- Fragments.FragReadComplete: fragments and requests are aligned to 32 bytes and end 64 bytes below 2^32; for smaller ones the rounding of the code wraps, also in Fragments.FragGet, Fragments.FragRead and Fragments.Skip.
- Fragments.FragGet: aligned to 32 bytes, as above.
- Fragments.FragRead: aligned to 32 bytes, as above.
- Fragments.Skip: aligned to 32 bytes, as above.
- GcLoader.Loader.Interrupt: requests lie within the disc, the card and memory, and reads by the device succeed, because the code looks at the result of writes and of fragment and disc commands only; a fragment list is given as a list, not as the bytes of its buffer.
- GcLoader.Loader.ReadWriteAsync: a read of no bytes must still lie inside the card.
- DiscRead.Drive.Perform: the switch to the boot loader's fragments at one offset and the delayed start with emulated timing are left out.
- GcLoader.Loader.Release: the lowest slot first is not fair; only safety and completion once are stated.
- DiscAudio.Streamer.Start: tracks lie on the disc, and the read of a block delivers all of it.
- EthernetRing.Mac.Receive: a frame that exactly fills the free pages leaves the ring looking empty, as in the code, so that no frame is lost is not claimed.
- SdCard.Driver.Read: sectors lie on the card, whose number of sectors is below 2^32 - 1; the wait for a data block ends.
