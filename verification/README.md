# Verified models of Janas

Models, in Dafny, of the parts of Janas whose state or arithmetic is hardest
to follow, and proofs of what they are for. Code that changes things step by
step is modelled by methods and classes over arrays and fields; each is proved
against a specification, and what the code is for is proved of the
specification. `dafny verify dfyconfig.toml` checks the project.

**Exact sound (`src/common/audio_alac.c`).** `Bits` is the reader of
`audio_aac.h`. `AlacRice` is the adaptive Rice code, `AlacLpc` the predictor,
`AlacElement` the stereo turn and the low bits, `AlacFrame` an element's
headers and planes. Each has an encoder, a mirror of the decoder's state, that
the repository does not have, and a proof that the decoder inverts it.
`AlacDecode` puts them together: `ElementComesBack` is the file's claim that a
decoder of lossless sound returns the encoder's integers. `AlacLimits` is what
an element can carry and what it cannot. `AlacWidths` and `AlacLearn` say in
exact numbers how the widths of the codes and the predictor's coefficients
follow what came. `AlacCode` and `AlacPacket` are the decoder's own loops over
its arrays.

**Huffman tables, noise shaping, low delay (AAC).** `Vlc` says when a table of
two levels matches prefixes and proves that such a table reads codes, and
concatenations of codes; `VlcBuild` builds one, exactly when the codes allow.
`Eld` proves over every run that a history updated in place is what three
frames still owe. `Tns` and `TnsFrame` prove the shaping filters of a whole
frame and their inverse, and `TnsLattice` that they are the lattice of the
coefficients sent, over the bins of their bands. Samples are exact reals.

**The terminal (`src/chat`).** `ScrollDraw` proves when a partial drawing is a
full one, and `ScrollRuns` when all of a run are, by its drawings, clears and
changes of size alone. `Wrap`, `Collect` and `Box` are the rule that breaks
lines, the window of wrapped rows and the box a message is written in;
`Characters` says of text in UTF-8 that they stand at whole characters, and
`Items` how far a list item's rows are set in. `Markdown` is the machine that
reads a model's marks.

**Texts and files.** `Layout`, `LayoutAnswer`, `LayoutTags`, `LayoutWords` and
`LayoutRun` are the coder and decoder of the services' layouts, and
`LayoutRead` is how what comes out is read; `LayoutPlain` is what they read in
plain terms; `Csv` is the reader that splits a line in place; `Ring` the
simplification of outlines over exact coordinates; `Spirv` the decorator of
shaders, with `SpirvNumbers`; `Jns`, `JnsSlots`, `JnsFile` and `JnsNumbers`
the writer of a model's file, its slots and their checksums. `Ints` and
`ByteText` are shared.

What the code turned out to do otherwise than its comments or its callers
might expect is proved too:

- ALAC samples sent plain come back exactly when the width of a compressed
  sample would be 1 to 32 (`AlacLimits.PlainComesBackExactlyWhen`): stereo of
  32 bits without low bits apart is refused, and so is mono of 16 bits that
  names 16 of them. A pair mixed with a weight above one may have no form
  (`AlacLimits.ExtremesAreNotSent`); `AlacLimits.PairIsSentExactlyWhen` says
  which pairs have one.
- A window made smaller and given its size back between two partial drawings
  is not redrawn (`ScrollDraw.ResizeBackIsNotSeen`). A drawing is right
  whatever such a touch has left exactly when it leaves no row alone
  (`ScrollDraw.RightHoweverTouched`), which what is remembered tells; every
  drawing of a run is right exactly when each one after a touch does so
  (`ScrollRuns.RunsShowExactlyWhen`).
- A line of more than 1024 rows is counted whole and shown cut
  (`Collect.RowsCutAreCounted`).
- An expert's matrix of type 0 (F32 in GGUF) is taken for a missing one, and
  comes through exactly when `JnsSlots.MatrixComesThrough` says.
- A blank line among the words of a layout's answer makes strtoul read the
  next line's number, and the value's length wraps
  (`LayoutRun.BlankLineLoses`). Values are lost exactly when such a line takes
  the number of a word that has none yet (`LayoutRun.LostLayout`).
- A carriage return after the line breaks that follow a tag is lost
  (`LayoutRun.ReturnIsLost`); a layout's own text brings it back exactly when
  it has none there (`LayoutRun.LayoutComesBack`).
- A text of a layout's answer may open a tag, or hold a line of three dashes
  that ends the template early, and the answer is taken
  (`LayoutRead.TagIsMadeUp`, `LayoutRead.TemplateIsCut`). For the other
  answers, and no more, the layout is read as the answer with the English tags
  at its markers (`LayoutRead.AcceptedArePermuted`).
- An escape that ends in a character that is not ASCII is taken to end in that
  character's first byte, and a row may then break inside the character
  (`Characters.WholeExactlyWhenTidy`).

## Model

| member | source | states |
|---|---|---|
| Bits.Reader.Peek | src/common/audio_aac.h:27-34 | the eight-byte window, shifted by the place within the first byte and cut, is the next 32 bits of the stream, zeros past its end, wherever the reader stands |
| Bits.Reader.PeekPast | src/common/audio_aac.h:27-34 | the k bits met after skipping some of the next 32, as the second look-up of a Huffman table takes them |
| Bits.Reader.Bits | src/common/audio_aac.h:37-44 | k bits, 0 to 32, are the number they spell most significant first; the reader moves by k and by nothing else |
| Bits.UnpackPack | src/common/audio_aac.h:20-44 | bits packed into bytes are read back where they were put: the reader and the writer of bits agree |
| Bits.FieldRead | src/common/audio_aac.h:37-44 | a number of w bits written at a place is read back from it, and what was written after it stands w bits on |
| AlacRice.WidthBounds | src/common/audio_alac.c:65-84 | whatever 32 bits the history holds, the width of a residual's code is 1 to 23 and of a run's 1 to 7, so no shift or read is out of range |
| AlacWidths.ValueWidthIs | src/common/audio_alac.c:65-67 | a value is coded with the greatest width up to the stream's limit whose power of two the history over 512, and three, reaches |
| AlacWidths.RunWidthIs | src/common/audio_alac.c:78-82 | a run's width is 7 less the history's binary logarithm, one more from a history of 48 and two from 112, up to the limit |
| AlacWidths.HistoryFollows | src/common/audio_alac.c:72-76 | in numbers that do not wrap a value moves the history by rate 512ths of the way to 512 times itself; one of more than 16 bits sets it to the most |
| AlacWidths.HistoryNears | src/common/audio_alac.c:72-76 | so it comes nearer to that and does not go past it, but for the rounding of one step |
| AlacWidths.RateIs | src/common/audio_alac.c:185-203 | the rate is a quarter of the product of the header's and the stream's, and under 512 |
| AlacWidths.NothingPastTheEnd | src/common/audio_alac.c:62-64 | no residual is decoded from past the end of the bits |
| AlacRice.ScalarInvertsCode | src/common/audio_alac.c:31-55 | every code, quotient by 2^k - 1 with its short remainder or escape of nine ones, is read back to its number and its end, whatever bits follow |
| AlacRice.ScalarCodePrefixFree | src/common/audio_alac.c:39-55 | two codes of one width that begin at one place are codes of the same number: codes can be told apart without marks between them |
| AlacRice.TurnInvertsWrite | src/common/audio_alac.c:62-92 | one turn of the loop reads back what one turn of the encoder writes: a residual less the one a run has promised, and the run of zeros after it |
| AlacRice.DecodedInvertsEncoded | src/common/audio_alac.c:57-94 | from any common history, with its zero runs and the minus one after a run, decoding the encoder's bits gives every residual that fits its width, and stops where they end |
| AlacRice.DecodeScalar | src/common/audio_alac.c:39-55 | the reader's steps give exactly the number and the place of the specified code |
| AlacRice.DecodeTurn | src/common/audio_alac.c:62-92 | one turn of the loop writes the specified residuals into the array and nothing outside them |
| AlacRice.RiceDecompress | src/common/audio_alac.c:57-94 | fails exactly where the specified decoder finds no bits left; else fills all n places and no other with its residuals |
| AlacLpc.SignExtendUnique | src/common/audio_alac.c:96-100 | the extension of a bit pattern is the one number of that width that differs from it by a multiple of 2^bits |
| AlacLpc.DifferenceUndone | src/common/audio_alac.c:107-133 | a difference wrapped to the width and added to any 32-bit guess, wrapping, gives the sample back |
| AlacLpc.DecodedInvertsEncoded | src/common/audio_alac.c:107-152 | for every sequence that fits, order, quantization and starting coefficients, the predictor run on the encoder's residuals gives the samples back, with the same coefficients at the end; the residuals fit as many bits as the samples |
| AlacLpc.LockstepAt | src/common/audio_alac.c:107-152 | decoder's and encoder's coefficients are equal after every sample, not only at the end |
| AlacLpc.OutputsFit | src/common/audio_alac.c:107-152 | past the first sample whatever is decoded is a number of bps bits, so nothing wider could have been sent |
| AlacLpc.DifferencesIgnoreCoefs | src/common/audio_alac.c:120-125 | order 31 neither reads nor moves the coefficients |
| AlacLpc.Accumulate | src/common/audio_alac.c:133-135 | the sum of products, wrapping at each step |
| AlacLpc.Adapt | src/common/audio_alac.c:139-150 | the loop moves the coefficients of the order as the recursion does that AlacLearn.WeightsLearn describes, in 16 bits, and no other |
| AlacLearn.AccIsWeighted | src/common/audio_alac.c:131-135 | the sum, wrapped at each step, is the exact sum of the distances from the oldest sample by their coefficients, wrapped once |
| AlacLearn.GuessIsNearest | src/common/audio_alac.c:131-138 | the guess is the integer nearest to that sum over 2^quant, the greater of two, from the sample order + 1 back |
| AlacLearn.WeightsLearn | src/common/audio_alac.c:139-150 | a residual that is not zero moves each of the first coefficients, and no other, by one up where the sample and the residual are on one side and by one down where they are not, for as long as the residual is not spent by the gaps over 2^quant, each taken as often as its place; for gaps under 2^26 |
| AlacLearn.GuessLearns | src/common/audio_alac.c:131-150 | so with the coefficients moved the same samples are guessed no lower where the sample that came was above the guess and no higher where it was below |
| AlacLpc.Differences | src/common/audio_alac.c:120-129 | running sums are right also when written over their own residuals |
| AlacLpc.Predict | src/common/audio_alac.c:107-152 | the whole of the predictor, its special orders included, and in place for order 31: samples and coefficients are those of the specified one |
| AlacElement.ReadChannelInverts | src/common/audio_alac.c:199-207 | a channel of any predictor type, 15 with its second pass included, comes back from its residual bits |
| AlacElement.UnmixInvertsMix | src/common/audio_alac.c:217-226 | the decoder's turn undoes the encoder's for every weight and shift, in wrapping 32-bit arithmetic |
| AlacElement.MixInvertsUnmix | src/common/audio_alac.c:217-226 | and the other way round: every pair of outputs comes of exactly one pair sent |
| AlacElement.MixBetween | src/common/audio_alac.c:217-226 | with a weight of at most one the mixed middle lies between left and right |
| AlacElement.RestoreInvertsSplit | src/common/audio_alac.c:227-231 | low bits sent apart and high bits shifted back make the sample |
| AlacFrame.ReadFrontInverts | src/common/audio_alac.c:158-171 | the head of an element, with or without a count, is read back; the widths, counts and sizes it refuses are those the code refuses |
| AlacFrame.ReadChanInverts | src/common/audio_alac.c:182-191 | a channel's predictor, quantization, rate and coefficients, sent last first, are read back |
| AlacFrame.ReadPlanesInverts | src/common/audio_alac.c:192-198 | low bits, or plain samples, interleaved a sample of each channel at a time, are read back |
| AlacFrame.PlanesAt | src/common/audio_alac.c:192-216 | where sample i's numbers stand among the interleaved ones |
| AlacDecode.ElementComesBack | src/common/audio_alac.c:156-233 | the file's claim of exactness: for every configuration admitted, every plan of an element it allows (plain or compressed, any predictor, shift, weight and low bits) and all samples it can carry, decoding the encoder's bits gives those samples, sample for sample, and stops where the element ends |
| AlacLimits.EverySampleCarried | src/common/audio_alac.c:156-233 | what can be carried for sure: alone every sample of the configured size, in a pair too when the weight is at most one |
| AlacLimits.MixMayNotFit | src/common/audio_alac.c:217-226 | with a weight of 255 and no shift the mix of the extremes of 16 bits is no number of the 17 bits the header gives a pair |
| AlacLimits.PairMustFit | src/common/audio_alac.c:156-233 | past the first sample, whatever bits an element with a predictor in both channels holds, a pair it yields has high parts whose mix fits the width, with or without low bits apart |
| AlacLimits.PairIsSentExactlyWhen | src/common/audio_alac.c:156-233 | some element of given low bits, weight and shift yields a pair past its first if and only if some high parts of the pair, mixed, fit the width |
| AlacLimits.HighPartsAre | src/common/audio_alac.c:228-233 | the high parts of a sample are the numbers that differ from it shifted right by a multiple of 2^(32 - low bits), and no others |
| AlacLimits.ExtremesAreNotSent | src/common/audio_alac.c:156-226 | so no such element of 16-bit pairs without low bits apart, whatever its bits, yields those extremes with that weight |
| AlacLimits.WidthRefused | src/common/audio_alac.c:158-171 | over all sample sizes, channels and counts of low bits, a front whose other fields are right is refused if and only if the width it gives is none of 1 to 32 |
| AlacLimits.PlainComesBackExactlyWhen | src/common/audio_alac.c:156-216 | samples sent plain come back if and only if that width is one of 1 to 32, though plain samples do not use it |
| AlacLimits.ChannelOutputsFit | src/common/audio_alac.c:199-207 | whatever bits an element holds, past a channel's first its samples are numbers of the element's width |
| AlacLimits.DecodedIsInside | src/common/audio_alac.c:156-216 | whatever bits an element that decodes holds, a mixed pair is shifted by less than a word and plain samples and low bits lie before the end |
| AlacCode.ChanHeader | src/common/audio_alac.c:182-191 | reads a channel's header as specified, or refuses it |
| AlacCode.DecodeChannel | src/common/audio_alac.c:199-207 | residuals and samples of a channel into their arrays, the second pass over the residuals in place |
| AlacCode.FillLow | src/common/audio_alac.c:192-198 | the low bits of each sample into the arrays of the channels in use |
| AlacCode.UnmixAll | src/common/audio_alac.c:217-226 | every pair turned in place, each from its own old values |
| AlacCode.RestoreAll | src/common/audio_alac.c:227-231 | every sample joined with its low bits in place |
| AlacCode.Alac.DecodeChannels | src/common/audio_alac.c:192-207 | the low bits, then each channel, into the decoder's planes; refuses where the bits do not suffice |
| AlacCode.Alac.DecodeFront | src/common/audio_alac.c:156-171 | reads the fields before the choice of coding, or refuses them, exactly as specified |
| AlacCode.Alac.DecodeElement | src/common/audio_alac.c:154-233 | the decoder's planes after an element hold exactly the specified samples; it refuses exactly the elements the specification refuses |
| AlacPacket.PacketComesBack | src/common/audio_alac.c:289-311 | a packet of any elements within the channels allowed is decoded to the sum, sample by sample, of all its channels |
| AlacPacket.MixIsSum | src/common/audio_alac.c:290-319 | the mix at a sample is what was there and that sample of every channel of every element |
| AlacPacket.PackedPacketComesBack | src/common/audio_alac.c:289-311 | the same from the packet's bytes |
| AlacPacket.DecodePacket | src/common/audio_alac.c:289-311 | the loop over a packet's elements, its element kinds, its end tag and its refusals |
| AlacPacket.TagsAre | src/common/audio_alac.c:290-319 | tag 7 ends a packet, 1 is a pair, 0 and 3 a channel; any other is refused, and so are more channels than the stream has |
| Vlc.LookupMatches | src/common/audio_aac.h:80-94 | a finished two-level table gives, at any place of any stream, the one code that begins there, its symbol and its length; or none exactly when no code begins there |
| Vlc.TableIsPrefixFree | src/common/audio_aac.c:34-102 | no code of a finished table begins another |
| Vlc.SpelledReadBack | src/common/audio_aac.h:80-94 | any concatenation of codewords is read back symbol by symbol, whatever follows |
| VlcBuild.TakenTwice | src/common/audio_aac.c:78-98 | an entry already taken means that one of two codes begins the other |
| VlcBuild.TakenByLonger | src/common/audio_aac.c:75-84 | a short code where a second table hangs begins a longer code |
| VlcBuild.Widths | src/common/audio_aac.c:40-53 | each first index has the widest of the codes that pass through it; codes too long are refused |
| VlcBuild.Total | src/common/audio_aac.c:54-58 | the size of all tables together |
| VlcBuild.Lead | src/common/audio_aac.c:63-70 | the second tables follow one another, each entered from its prefix, and no entry is a code yet |
| VlcBuild.PlaceShort | src/common/audio_aac.c:75-84 | a short code takes every first index it begins, or meets one that is taken |
| VlcBuild.PlaceLong | src/common/audio_aac.c:85-100 | a long code takes its run of a second table, or meets an entry that is taken |
| VlcBuild.Fill | src/common/audio_aac.c:34-102 | succeeds exactly when the sizes are within limits and the codes that are not empty are free of prefixes; then the table matches prefixes |
| VlcBuild.BuildableInNumbers | src/common/audio_aac.c:34-70 | the limits are 12 bits, codes of 16 bits more and 32767 entries, counted table by table |
| VlcBuild.WidthIsWidest | src/common/audio_aac.c:44-52 | a second table is as wide as the widest of the codes that share its first bits, and no wider |
| VlcBuild.Get | src/common/audio_aac.h:80-94 | the next symbol and the reader moved by its length, or -1 and the reader where it was |
| VlcBuild.BuildAndRead | src/common/audio_aac.h:64-94 | a table built and then asked: any word of its codes gives its symbols, and the reader ends where the word does; no table is built exactly when the codes do not allow one |
| Eld.HistoryIsPending | src/common/audio_aac_eld.c:41-44 | after any frames the history kept in 3 n cells is what the last three frames still owe |
| Eld.OutputIsFourFrames | src/common/audio_aac_eld.c:20-45 | each output of every frame of every run is the sum of four frames' windowed samples, a quarter each (section 4.6.20.2 of ISO/IEC 14496-3) |
| Eld.ExtendedTurns | src/common/audio_aac_eld.c:27-40 | a period of 2 n on, the extension changes its sign |
| Eld.ExtendedIsContinued | src/common/audio_aac_eld.c:27-38 | the extension is the only function that is the 2 n samples and changes sign every 2 n |
| Eld.OutputIsStandard | src/common/audio_aac_eld.c:5-45 | for frames given as functions so continued, the output is the windowed sum over four quarters that section 4.6.20.2 of ISO/IEC 14496-3 asks, a quarter of a frame later, the last quarter of a quarter left out |
| Eld.Fold | src/common/audio_aac_eld.c:27-38 | the loops that bring an index into the period end, with the sign of the extension |
| Eld.Overlap | src/common/audio_aac_eld.c:40-41 | the newest frame's first quarter on the history's |
| Eld.MoveOn | src/common/audio_aac_eld.c:42-44 | the history moved on in place reads no cell it has already written |
| Eld.Synth.Next | src/common/audio_aac_eld.c:20-45 | a frame in, its output out, and the history of one frame more |
| Tns.PoleUndoesZero | src/common/audio_aac.c:1056-1068 | on exact numbers the all-pole filter undoes the all-zero one of the same taps |
| Tns.ZeroUndoesPole | src/common/audio_aac.c:1056-1068 | and the other way round |
| Tns.FilterUndone | src/common/audio_aac.c:1046-1068 | over a range in either direction, the rest of the spectrum left alone |
| Tns.FiltersCommute | src/common/audio_aac.c:1025-1068 | filters on ranges apart do not see each other |
| Tns.AppliedUndone | src/common/audio_aac.c:1025-1068 | a list of filters on ranges apart, run one way and then the other, gives the whole spectrum back |
| TnsFrame.WindowSegmentsApart | src/common/audio_aac.c:1025-1050 | the filters of a window act on ranges that do not meet, whatever their lengths and orders |
| TnsFrame.SegmentsApart | src/common/audio_aac.c:1009-1071 | nor do those of different windows |
| TnsFrame.ShapingUndone | src/common/audio_aac.c:1009-1071 | shaping a spectrum and its inverse undo each other, in both orders, for any windows, filters, orders and directions (section 4.6.9 of ISO/IEC 14496-3) |
| TnsFrame.ToLpc | src/common/audio_aac.c:1035-1045 | the reflection coefficients become prediction ones, two at a time in place, as the step-up recursion gives them |
| TnsLattice.AllZeroIsLattice | src/common/audio_aac.c:1035-1068 | the all-zero filter by the coefficients is the lattice of the reflection coefficients, stage by stage |
| TnsLattice.AllPoleIsLattice | src/common/audio_aac.c:1035-1058 | what the all-pole filter gives is what that lattice turns back |
| TnsFrame.FilterRange | src/common/audio_aac.c:1051-1068 | a range filtered in place, up or down, either way, is the specified range |
| TnsFrame.ShapeWindow | src/common/audio_aac.c:1025-1070 | a window's filters, each below the last, change its own part as specified |
| TnsFrame.ApplyTns | src/common/audio_aac.c:1009-1071 | a whole frame, window by window |
| TnsLattice.FrameIsLattice | src/common/audio_aac.c:1009-1071 | over a whole frame, every bin of a band that is a filter's and that filtering may reach is that filter's lattice, counted from the end its direction says |
| TnsLattice.UnshapedStays | src/common/audio_aac.c:1009-1071 | and a bin of no filter's bands stays as it was |
| ScrollDraw.MoveSpares | src/chat/scroll.h:363-376 | moving the region by k leaves to send exactly the rows that do not match k rows lower |
| ScrollDraw.MovesAre | src/chat/scroll.h:366-367 | the moves tried are those of up to four rows and less than the window |
| ScrollDraw.Scroll.FindMove | src/chat/scroll.h:363-376 | the move found leaves the fewest rows to send of all moves of at most four rows, and is the smallest that does |
| ScrollDraw.Scroll.SendRows | src/chat/scroll.h:395-410 | rows are sent exactly where the bytes remembered differ; all are remembered |
| ScrollDraw.Scroll.DrawRows | src/chat/scroll.h:319-435 | a drawing, partial or not: what is moved, sent, kept and remembered, and how many rows are sent |
| ScrollDraw.StepKeepsInv | src/chat/scroll.h:319-435 | every drawing, clear and change of size keeps that a row remembered is the row shown, or the window is known to be touched |
| ScrollDraw.RightExactlyWhen | src/chat/scroll.h:347-410 | a drawing shows the window if and only if each row it left alone showed what was remembered of it |
| ScrollDraw.OneMove | src/chat/scroll.h:363-376 | the move a drawing makes is told by the rows remembered and the rows to draw alone |
| ScrollDraw.RightHoweverTouched | src/chat/scroll.h:343-410 | a drawing is right whatever a touch before it has left on the terminal if and only if it leaves no row alone, which the remembered size, count of clears and rows tell before it |
| ScrollDraw.TouchedRunIsRight | src/chat/scroll.h:319-435 | so it is at the end of every run: a window touched once more, its size given back, is drawn right whatever the touch left if and only if no row is left alone |
| ScrollRuns.EventsTell | src/chat/scroll.h:319-435 | what the store remembers after any run is told by its events alone, whatever the terminal shows |
| ScrollRuns.RunsShowExactlyWhen | src/chat/scroll.h:319-435 | for every list of drawings, clears and changes of size: in all runs of it, whatever the changes of size leave on the terminal, every drawing is what a full drawing gives if and only if each drawing of a touched window leaves no row alone, as the events tell |
| ScrollRuns.CountsTell | src/chat/scroll.h:343-362 | after any events the size and the count of clears remembered are those at the last drawing, the count modulo 2^32 |
| ScrollRuns.ClearsAreSeen | src/chat/scroll.h:347-348 | clears between two drawings are seen unless their number is a multiple of 2^32 |
| ScrollRuns.NoticedRunsShow | src/chat/scroll.h:319-435 | in every run in which, before each drawing, the window is untouched, or has another size than at the last drawing, or was cleared a number of times that is no multiple of 2^32, the terminal after every drawing shows what a full drawing gives |
| ScrollRuns.DrawsAndClearsShow | src/chat/scroll.h:319-435 | so it does in every run of drawings and clears alone, fewer than 2^32 of these between two drawings |
| ScrollRuns.UntouchedIsTrusted | src/chat/scroll.h:343-400 | after any events a window drawn and not touched since is trusted: a partial drawing sends only the rows that changed |
| ScrollDraw.ResizeBackIsNotSeen | src/chat/scroll.h:347-348 | a run where it does, and the partial drawing leaves a lost row lost |
| Collect.RowsCounted | src/chat/scroll.h:187-195 | the count of rows is that of the conversation's, when no line is over 1024 rows |
| Collect.RowsCutAreCounted | src/chat/scroll.h:187-215 | a line over 1024 rows is counted whole and shown cut: the count is then more than there is to show |
| Collect.RowsFollow | src/chat/scroll.h:208-234 | the rows, newest first, are the text: each ends where the one below it begins or with its line, from the end of the last line to the start of the first, set in by the hang after a line's first row |
| Collect.SlotsFollow | src/chat/scroll.h:208-234 | of one line they are its rows, 1024 at the most |
| Collect.WindowFollows | src/chat/scroll.h:208-234 | a window shows the rows past those below it, as many as there are or it has room for |
| Collect.Conversation.ScCollect | src/chat/scroll.h:208-234 | walking back and stopping early gives exactly the rows back to back + view of all rows of all lines, newest first, the line being written included |
| Collect.Conversation.CollectLine | src/chat/scroll.h:213-232 | one line's rows added behind those of the lines after it |
| Collect.Conversation.TakeRows | src/chat/scroll.h:221-231 | the rows of one line, last first, past those to skip, until the window is full |
| Collect.Conversation.ScrollRows | src/chat/scroll.h:187-195 | the sum of the rows every line wraps to |
| Collect.Conversation.ScrollMove | src/chat/scroll.h:469-487 | the window moves by the rows asked, stopped at either end, and says whether it did |
| Collect.MovedWindowIsFull | src/chat/scroll.h:469-487 | after a move the window is full whenever there are rows enough, and holds every row when there are not |
| Wrap.BreakIsRight | src/chat/term.h:184-230 | a row ends where it must: all before it fits but trailing spaces and an over-wide first character; it breaks after its last space, or, with none, before the first character that does not fit |
| Wrap.BreakIsTheOnlyOne | src/chat/term.h:184-230 | no other place could end the row so |
| Wrap.NoBreakWhereItEnds | src/chat/term.h:184-230 | a row that the text's end fits has no break |
| Wrap.RowsAreLaidOut | src/chat/term.h:184-230 | the rows follow one another through the whole text, the first within the width, the others within the room left by the hang |
| Wrap.RowsAreTheOnlyOnes | src/chat/term.h:184-230 | they are the only rows so laid out |
| Wrap.RowsAdvance | src/chat/term.h:184-230 | each row begins further on than the last, so nothing is shown twice or lost |
| Wrap.Esc | src/chat/term.h:118-127 | the length of the escape sequence at a place, 0 for none, cut at the end |
| Wrap.ScHang | src/chat/term.h:142-182 | the columns a list item's continuations are pushed by, 0 for any other line |
| Items.ItemHangs | src/chat/term.h:142-182 | blanks, a bullet or digits with a dot or a parenthesis, and spaces: the hang is the columns of all three; none without the spaces |
| Items.OthersDoNotHang | src/chat/term.h:142-182 | a line that begins otherwise after its blanks has none |
| Items.RoomIsLeft | src/chat/term.h:184-196 | the hang is used exactly where it leaves more than eight columns |
| Wrap.ScWrap | src/chat/term.h:184-230 | the scan that goes back to a word's start ends, counts every row and writes the first of them, and no other place of the array |
| Characters.StepIs | src/chat/term.h:78-128 | in text of code points written in UTF-8 a step of the scan is one code point of its own columns, or one escape of none: ESC with one more, or with a bracket, parameters and one more |
| Characters.CharactersMet | src/chat/term.h:78-112 | measured without escapes the places met are the ends of whole characters, all of them and no other |
| Characters.WholeExactlyWhenTidy | src/chat/term.h:78-128 | with escapes, every place met is a character's end if and only if each escape met ends in ASCII |
| Characters.RowsAreWhole | src/chat/term.h:184-230 | so in such text every row the scan writes begins at a character's end |
| Box.RowCutIsRight | src/chat/term.h:468-517 | a row of the box ends before a newline that all before it fits, or where the conversation's rule breaks it, or with the message |
| Box.BoxRowsAreLaidOut | src/chat/term.h:468-517 | the rows follow one another, newlines left out between them, to the message's end |
| Box.Layout | src/chat/term.h:468-517 | the loop that goes back ends, counts every row, and fills the arrays with the first 512; the last end only when all fit |
| Box.BoxRowsAreWhole | src/chat/term.h:468-517 | in text of code points every row of a message begins and ends at a whole character |
| Box.RoomIs | src/chat/term.h:468-480 | a row has the columns that the prompt and one more leave, and four at the least |
| Box.CountCols | src/chat/term.h:101-110 | the columns of a text are the sum of its characters' |
| Box.ColumnLeadsBack | src/chat/term.h:525-569 | the column of a place in a row leads back to it, past the characters of no width right after it |
| Box.RowsCover | src/chat/term.h:525-542 | every place of the message is in a row |
| Box.FoundIsPutBack | src/chat/term.h:525-569 | the row and column found for a cursor on a boundary put it back where it was, past characters of no width |
| Box.PutIsMet | src/chat/term.h:548-569 | any column of any row is put on a boundary inside that row |
| Box.Find | src/chat/term.h:525-542 | the row that holds the cursor, the first if two do, and its column; the last row and 0 for one outside the message |
| Box.At | src/chat/term.h:548-569 | the place of a column of a row, rows out of range brought in; always a boundary of that row, and in text of code points the end of a whole character |
| Box.ThereAndBack | src/chat/term.h:525-569 | the two calls together: the same cursor, past nothing but characters of no width |
| Markdown.Md.Emphasis | src/chat/markdown.h:237-256 | stars open or close exactly by the rule of what comes before and after them, and the terminal shows so; only when neither are they written |
| Markdown.Rules | src/chat/markdown.h:145-149 | what the rules call letters, blanks and marks, in characters: stars open before no blank and after no letter, and close after no blank |
| Markdown.Md.Slant | src/chat/markdown.h:207-221 | an underscore opens exactly where a word begins and closes where one ends; otherwise it is written |
| Markdown.Md.DecideUnder | src/chat/markdown.h:200-221 | a second underscore makes both text; one alone opens or closes exactly where a word begins or ends |
| Markdown.Md.DecideLead | src/chat/markdown.h:273-284 | a dash or a plus and a space are a bullet, and nothing else is |
| Markdown.Md.ReadFenced | src/chat/markdown.h:297-324 | inside a block only a backtick that begins a line is held; what is written, kept and remembered for every other byte |
| Markdown.Md.ReadProse | src/chat/markdown.h:325-350 | what is held outside a block: marks at the start of a line, stars and backticks anywhere, an underscore that follows none; what is written, kept and remembered for every other byte |
| Markdown.Md.DecideTick | src/chat/markdown.h:171-199 | a third backtick in a row, and only that, opens or closes a block; one is a mark of code, two are none, and nothing solid is lost |
| Markdown.Md.Toggle | src/chat/markdown.h:188-196 | each backtick turns code once, and the terminal shows code exactly while it is on |
| Markdown.Md.Turn | src/chat/markdown.h:176-186 | a fence opens or closes a block, code shows with it, and the blanks before it go |
| Markdown.Md.DecideStar | src/chat/markdown.h:222-257 | a star and a space at the start of a line are a bullet; two stars are held for what follows; others open or close exactly by the rule |
| Markdown.Md.DecideHash | src/chat/markdown.h:258-272 | up to six hashes held: a heading before a space, and bold shows; otherwise all of them written |
| Markdown.Md.EndLine | src/chat/markdown.h:92-110 | all that was open on a line closes, and the terminal shows so |
| Markdown.Md.Swallow | src/chat/markdown.h:154-161 | the rest of an opening fence's line goes |
| Markdown.Md.Read | src/chat/markdown.h:289-351 | a byte with nothing held but blanks: one deep, as the machine's call of itself always is |
| Markdown.Md.Byte | src/chat/markdown.h:151-351 | every byte keeps: the eight bytes held never overflow, what is solid is written once and in order, what is written came, the fences stand as an independent scan says, and what is shown is what is open |
| Markdown.Md.Write | src/chat/markdown.h:118-126 | a piece of any length; a machine that is off writes it as it is |
| Markdown.Md.End | src/chat/markdown.h:131-143 | at the end nothing is held, nothing is left open or shown, and every byte that no mark may drop has been written |
| Markdown.Reply | src/chat/markdown.h:118-351 | a whole reply cut into pieces anywhere: its solid bytes, those on an opening fence's line left out, come through once and in order, and nothing is written that did not come |
| Csv.SplitCsv | tools/gen_geo.c:91-125 | written over the line it reads, the fields in the buffer are those of a functional reader of the line, at most as many as asked |
| Csv.ReadField | tools/gen_geo.c:101-119 | the writing place never passes the reading one: what is still to be read is as it was, and so is what was written before |
| Csv.CutAt | tools/gen_geo.c:95 | the line ends before its first carriage return, newline or NUL |
| Csv.CellReadBack | tools/gen_geo.c:97-123 | one field, quoted or bare, is read back to the comma or end after it |
| Csv.FieldsReadBack | tools/gen_geo.c:91-125 | fields written with their quotes doubled and commas between them are those read back, as many as asked (section 2 of RFC 4180) |
| Csv.BufferReadBack | tools/gen_geo.c:91-125 | also from a buffer with a line break and anything after it |
| Ring.OffIsLeast | tools/gen_geo.c:349-357 | the distance compared is no more than that to any place of the line |
| Ring.OffIsMet | tools/gen_geo.c:349-357 | and is the distance to one of them |
| Ring.Simplify | tools/gen_geo.c:345-368 | marks between two points what the recursion keeps and changes no other mark; it ends because the split is strictly inside |
| Ring.Farthest | tools/gen_geo.c:351-362 | the first of the furthest points strictly between |
| Ring.SimplifiedIsOne | tools/gen_geo.c:345-368 | there is one way to mark a stretch so |
| Ring.DroppedAreNear | tools/gen_geo.c:345-368 | every point dropped is within the tolerance of the line through its nearest kept neighbours |
| Ring.RingStaysNear | tools/gen_geo.c:383-397 | so it is over a whole ring, where each dropped point has kept neighbours on both sides |
| Ring.AddRing | tools/gen_geo.c:370-422 | a ring keeps its ends and the point opposite, is simplified on both sides of it, and gives exactly the points marked, in order, the first and the last of the ring among them |
| Ring.Tolerance | tools/gen_geo.c:33 | the tolerance is a hundredth of a degree |
| Spirv.FlatSplit | tools/spv_fma.c:67-86 | words taken apart into instructions are those instructions one after another (section 2.3 of the SPIR-V Specification) |
| Spirv.SplitFlat | tools/spv_fma.c:67-86 | and instructions put one after another are taken apart into themselves |
| Spirv.FreshIsNew | tools/spv_fma.c:102-110 | the ids inserted are exactly the results not yet decorated, none twice |
| Spirv.ResultsKept | tools/spv_fma.c:67-86 | the insertion changes no result that is to be decorated |
| Spirv.DecoratedAfter | tools/spv_fma.c:62-112 | afterwards exactly the ids decorated before and every fma and conversion result are decorated |
| SpirvNumbers.ResultsAre | tools/spv_fma.c:67-86 | what is to be decorated is exactly the results of OpFConvert (115) and of OpExtInst (12) with Fma (50) of the set imported last as GLSL.std.450 |
| SpirvNumbers.TypesAre | tools/spv_fma.c:53-86 | a module begins with its magic number and five words; the types that the marks go before are the operations 19 to 39 |
| SpirvNumbers.MarkedAfter | tools/spv_fma.c:53-121 | after a run an id has OpDecorate (71) with NoContraction (42) if and only if it had it or is such a result |
| Spirv.OnlyMarksInserted | tools/spv_fma.c:100-112 | only decorations of such results are inserted, before the first type; every other instruction is where it was |
| Spirv.SecondRunInsertsNothing | tools/spv_fma.c:62-112 | a second run inserts nothing |
| Spirv.OutputIsSettled | tools/spv_fma.c:62-112 | the words that come out are a module again, and a second run gives the same words |
| Spirv.NameInside | tools/spv_fma.c:73-75 | the comparison of an imported set's name, which reads on through the words, is decided inside the instruction when its string ends there |
| Spirv.Note | tools/spv_fma.c:67-86 | what one instruction adds to the set imported, the results, the ids decorated and the types' place |
| Spirv.Scan | tools/spv_fma.c:62-90 | the whole scan, or a refusal exactly where an instruction's length is bad |
| Spirv.PutMarks | tools/spv_fma.c:103-110 | each result not decorated is decorated once, as the flags go |
| Spirv.Decorate | tools/spv_fma.c:53-121 | refuses exactly what is no module or has results and no types; otherwise writes the module with the decorations in their place |
| Jns.Copy | tools/gguf2jns.c:199-223 | in chunks, short reads and short writes, exactly the bytes asked are copied and nothing else changed, with their checksum carried on; fails exactly where the file ends first |
| Jns.SumZeros | tools/gguf2jns.c:226-236 | the checksum of n zero bytes carried on |
| Jns.RowsAt | tools/gguf2jns.c:245-277 | each byte of widened rows is that of its row and column, or zero past the old width |
| Jns.RowsAsTheyWere | tools/gguf2jns.c:249-250 | rows that are not widened are the bytes as they were |
| Jns.Widen | tools/gguf2jns.c:264-267 | a chunk's rows put apart in a cleared buffer |
| Jns.CopyWide | tools/gguf2jns.c:251-273 | chunks of as many rows as fit make the whole, and stay inside the buffers |
| Jns.CopyRows | tools/gguf2jns.c:240-277 | succeeds exactly when the rows are in the file and each fits the buffers if it is widened; then rows are widened and rows added into a file of zeros, and the checksum is of all of it though the zeros are not written |
| JnsSlots.MatricesApart | tools/gguf2jns.c:493-511 | a slot's matrices are aligned, apart and inside it |
| JnsSlots.SlotHolds | tools/gguf2jns.c:643-666 | each matrix is where the layer's table says; one of type 0 is left zero |
| JnsSlots.SlotHoldsBytes | tools/gguf2jns.c:643-666 | byte c of row r of expert e's matrix is the input's at its place, e times an expert's bytes, its offset and r old rows on; past the old width and rows it is zero |
| JnsSlots.MatrixComesThrough | tools/gguf2jns.c:652-663 | a matrix comes through if and only if its type is not 0 or it is all zeros: type 0 is taken for a missing matrix |
| JnsSlots.TypeZeroIsLost | tools/gguf2jns.c:653-655 | a matrix of type 0, one row of four bytes, that is lost |
| JnsSlots.WriteMatrix | tools/gguf2jns.c:652-663 | succeeds exactly when the matrix is missing or can be copied; then the zeros before it and its rows are written and summed in the slot's order |
| JnsSlots.WriteSlot | tools/gguf2jns.c:643-666 | succeeds exactly when its matrices can be copied; then the slot's bytes in the file are its content, each matrix's bytes those of its expert in the input, and the checksum is of exactly those bytes |
| JnsFile.SlotsApart | tools/gguf2jns.c:596-609 | a slot ends before a later one begins, and all lie between the residents and the file's end |
| JnsFile.SlotAligned | tools/gguf2jns.c:511-609 | every slot begins on a page and is whole pages |
| JnsFile.ResidentsApart | tools/gguf2jns.c:590-594 | a resident tensor ends before the next begins |
| JnsFile.PlacesApart | tools/gguf2jns.c:579-609 | tables, directory, metadata, residents and slots are apart and in order, the aligned ones aligned, up to the end of the file |
| JnsFile.SlotOffsets | tools/gguf2jns.c:601-607 | the table of slots: each at its place, 0 for one a layer is without |
| JnsFile.WriteResident | tools/gguf2jns.c:630-641 | succeeds exactly when the tensor can be copied; then it is at its place, widened where it is to be |
| JnsFile.WriteLayer | tools/gguf2jns.c:643-670 | succeeds exactly when every slot of the layer can be written; then all its slots and sums are, and what was written before stays |
| JnsFile.Convert | tools/gguf2jns.c:579-671 | a run succeeds exactly when every tensor and every slot can be copied; at its end every tensor and slot is whole where the tables say, each sum is of the bytes the file then holds in that slot, and the tables' part is still zero; and byte by byte each expert's matrices, where the table of slots says, are that expert's in the input |
| JnsNumbers.PlacesInNumbers | tools/gguf2jns.c:579-609 | the tables begin at 4096, with 112 bytes a layer, 8 a slot and 8 a checksum, 128 a tensor; metadata, tensors and slots each begin on the next page |
| JnsNumbers.ResidentInNumbers | tools/gguf2jns.c:590-594 | a resident tensor begins on the first page after the last |
| JnsNumbers.SlotInNumbers | tools/gguf2jns.c:596-609 | the slots of a layer are of one size and follow one another without a gap, as the layers do |
| JnsNumbers.MatrixInNumbers | tools/gguf2jns.c:486-511 | a matrix begins at the first multiple of 256 after the one before it; the slot is the fewest whole pages |
| JnsNumbers.MissingInNumbers | tools/gguf2jns.c:486-511 | a matrix that is missing takes no room |
| JnsNumbers.WritableInNumbers | tools/gguf2jns.c:240-277 | an expert's matrix can be copied exactly when its rows keep their bytes, or have more but no more than 16 MiB, and the file holds them |
| JnsNumbers.ResidentWritableInNumbers | tools/gguf2jns.c:630-641 | so for a tensor, which is copied whole or widened |
| JnsNumbers.GrownByte | tools/gguf2jns.c:240-277 | each byte of a widened tensor is that of its row and column, or zero |
| JnsNumbers.ResidentByte | tools/gguf2jns.c:630-641 | each byte of a tensor copied whole is the input's |
| Layout.NumberReadBack | src/chat/layout.c:322-323 | a number as printf writes it is read back by strtoul |
| LayoutPlain.SignedRead | src/chat/layout.c:319-323 | a number is read past spaces and a sign; a minus takes it from 2^64, and one of 2^64 or more is 2^64 - 1 |
| LayoutPlain.NoZerosBefore | src/chat/layout.c:244-300 | the numbers of markers and words are written without zeros before them |
| LayoutPlain.Classes | src/chat/layout.c:310-385 | the characters that count as spaces, digits, signs, blanks and trailing ones |
| Layout.ParseWhole | src/chat/layout.c:246-275 | a template taken apart into texts and tags is their concatenation |
| Layout.EncodeText | src/chat/layout.c:244-275 | the text with numbered markers, the tags, the blanks after each and whether another tag follows; fails exactly when a tag does not close |
| Layout.TagsArePermuted | src/chat/layout.c:318-358 | tags chosen by markers each met once are the English tags in another order |
| Layout.PutsBack | src/chat/layout.c:318-353 | in a template's own text every marker is met once and in order, and the tags put back give the template if and only if no line break in the blanks after a tag is followed by a carriage return; otherwise bytes are lost |
| LayoutTags.PartedWhole | src/chat/layout.c:318-323 | the answer's text parted at its markers is the text |
| LayoutTags.CodedGapsBlank | src/chat/layout.c:268-272 | what encode keeps after each tag is blank, as PutsTags and AcceptedArePermuted ask |
| LayoutTags.PutsTags | src/chat/layout.c:318-353 | what comes out is a template whose tags are those of the markers in order and whose texts are those between the answer's markers, but for the blanks right after a tag |
| LayoutAnswer.NumberBefore | src/chat/layout.c:319-323 | numbers are read past the end of the answer's text, and none is found there |
| LayoutAnswer.TakeGap | src/chat/layout.c:332-350 | the blanks after a tag are the English ones exactly between a tag and the next, or where both break the line |
| LayoutPlain.TakesWhen | src/chat/layout.c:332-350 | the English blanks are taken if and only if the English text has a tag right after them and the answer has the next marker there, or both have a line break |
| LayoutAnswer.DecodeText | src/chat/layout.c:311-358 | a text is accepted if and only if each marker of 1 to n is met exactly once; then the tags are put back in the answer's order |
| LayoutWords.ValuesBack | src/chat/layout.c:365-385 | the lines the words are asked with give each its English text, shorn of what trails, and the glossary's to the others |
| LayoutPlain.WordIs | src/chat/layout.c:277-300 | a line "key = text" is a word, without the spaces around the equals sign |
| LayoutPlain.NoWord | src/chat/layout.c:277-300 | a line without one, or that begins as a comment does, is none |
| LayoutPlain.ValueIs | src/chat/layout.c:365-385 | a value is the rest of its line up to a bracket, without spaces before it and what trails |
| LayoutWords.AstrayFromBlank | src/chat/layout.c:365-371 | a number is read past its own line only from a blank one |
| LayoutWords.AstrayExactlyWhen | src/chat/layout.c:365-371 | it is read so if and only if the line is blank and the next has a number and a colon; the number is the next line's |
| LayoutWords.LostExactlyWhen | src/chat/layout.c:365-385 | the values are lost if and only if such a blank line names a word in range that neither the glossary nor an earlier line has given |
| LayoutWords.NothingLost | src/chat/layout.c:365-385 | so without blank lines among the words no value is lost |
| LayoutRun.Encode | src/chat/layout.c:241-300 | the whole of what the model is asked |
| LayoutRun.DecodeWords | src/chat/layout.c:359-388 | the first value of each word, the glossary's before any, English for a word left out |
| LayoutRun.Decode | src/chat/layout.c:304-406 | the whole answer, or the reason there is none |
| LayoutRun.LostLayout | src/chat/layout.c:304-385 | an answer ends in a value read astray if and only if its markers are each met once and a blank line of its words takes the number of a word without a value |
| LayoutRun.BlankLineLoses | src/chat/layout.c:304-385 | the answer "=== words", a blank line and "1:a" is such |
| LayoutRun.LayoutComesBack | src/chat/layout.c:241-406 | for a layout whose template holds no marker or "=== words" in its texts and whose words hold no bracket: decode of encode's own text gives the English template without trailing blanks and the words, glossary terms in place of those they are for, if and only if no line break in the blanks after a tag is followed by a carriage return |
| LayoutRun.ReturnIsLost | src/chat/layout.c:336-350 | a template of one tag, a newline, a carriage return, a newline and a letter is not such |
| LayoutRead.CodedTagsOk | src/chat/layout.c:241-272 | the tags that encode keeps begin with two opening braces, close at their end alone and hold no line of dashes, as AcceptedArePermuted asks |
| LayoutRead.ReadWhere | src/chat/layout.c:241-300 | a text joined of texts and such tags is read as they stand if and only if no text opens a tag, alone or with the braces after it |
| LayoutRead.AcceptedArePermuted | src/chat/layout.c:241-406 | the template read in the layout that comes out is the answer's texts with the English tags in another order if and only if none of the answer's texts opens a tag and none that comes out holds a line of three dashes |
| LayoutRead.TagIsMadeUp | src/chat/layout.c:304-406 | the answer "{{x}}" before its words is taken, and its layout has a tag that the English one has not |
| LayoutRead.TemplateIsCut | src/chat/layout.c:304-406 | the answer "A", a line of three dashes and "B" is taken, and the template of its layout is "A" |

## Left out

- Memory exhaustion, error messages, files, sockets and the terminal's escape sequences as bytes: a file is a sequence or an array of bytes, the terminal an array of rows.
- Rounding of floating point: samples, filters and coordinates are reals; the inverse transform and the window tables are given, the output gain of ALAC is left out.
- The bit position and the indices are unbounded; a size_t does not wrap within the sizes the code admits.
- ALAC: what `*nb` holds after a refusal, the configuration's parsing and the silence that stands for a bad packet; `|` of low bits under shifted high bits is their sum.
- AlacLimits.EverySampleCarried: for a pair, a weight of at most one and a product within 32 bits are asked; with a larger weight, the pairs are those of AlacLimits.PairIsSentExactlyWhen, for predictors of one coefficient at least and past the first sample: a first sample, or a channel of order 0, can be a code wider than the width.
- AlacLearn.WeightsLearn: for gaps under 2^26, which samples of up to 26 bits have; those of more bits may wrap, and then only AlacLpc.Adapt says what is done. AlacLearn.GuessLearns asks besides that the sums are 32-bit numbers and no coefficient is at an end of its 16 bits.
- AlacWidths.HistoryFollows: for a history whose product with the rate is a 32-bit number.
- TnsFrame.ApplyTns: orders up to 20 and windows up to 1024 samples, as the code's arrays demand; which bands a configuration allows is given.
- VlcBuild.Fill: symbols are those that fit 16 bits, as the entries hold them, and codes those that fit their lengths, of the entries that are not empty.
- ScrollDraw: Tab's direct listing in the region, the colour of erased cells, the saved cursor and the columns returned; a change of size leaves any rows.
- sc_put_row, which lays a row into bytes: the rows drawn are given.
- The adjustment of `back` when the store is full, and the lines' splitting at newlines and colours held over them.
- Character width is an arbitrary function of a character's bytes; text is free of NUL.
- Box.Find: for a message of at most 512 rows, past which the last end is not written; so are Box.At and Box.ThereAndBack. Box.Layout is for every message.
- Markdown.Md.Write: text is free of NUL; the order of style changes among the bytes is kept, but only that what is shown is what is open is stated of it. Inside a heading a closing bold ends the heading's too, so bold shown implies bold or heading open and not the other way.
- Markdown: a fence is three backticks that the machine reads as one; what a reply is without its marks is stated for the bytes that no rule may drop.
- Csv: line breaks inside quotes, which the reader's caller does not give it.
- Ring: reading the points from JSON, rounding them to integers and the bounding box; distances are squared, so that no root is taken.
- Spirv.Scan: states what it finds when the names of imported sets end inside their instructions, as the SPIR-V Specification asks; ids past the bound are the caller's not to have (Spirv.Sound), and the C array's form, its comment and its count are not modelled.
- JnsFile: GGUF's reading, the choice of tensors and their checks, the header and the tables' own bytes, MXFP4 rewritten as Q8_0 and Llama's rows put back in order; the table of slots is a row a layer. The checksum is any that is carried on a byte at a time. A read of widened rows that comes short before the file ends, which the code takes for its end, does not happen.
- Layout: the language's glossary, hints and decimal comma are given; asking the model, the answer's fence, the cache of layouts and filling one with data are not modelled.
- LayoutRun.Decode: a value read astray ends in an outcome of its own; what memchr then finds past it is not modelled.
- LayoutRun.LayoutComesBack: fewer than 2^64 tags and words.
- SBR, PS, USAC, LTP's prediction, MCP, the server, Vulkan: not modelled.
