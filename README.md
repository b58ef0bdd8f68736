# CSP stream processes (Hoare 1978, sections 3.1-3.6)

A Dafny model of the Go package `csp`, which implements the stream-transducer
exercises of Hoare's "Communicating Sequential Processes" (CACM 21(8), 1978):

- COPY relays runes unchanged.
- SQUASH replaces each pair "**" by "↑". It comes in two variants: the strict
  `S32_SQUASH`, which drops a dangling final "*", and the lenient
  `S32_SQUASH_EX`, which sends it.
- DISASSEMBLE turns cards into a rune stream. Each card is cut to 80 runes and
  followed by one space.
- ASSEMBLE packs runes into 125-rune lines and pads the last line with spaces.
- The Reformat and Conway pipelines wire DISASSEMBLE -> COPY/SQUASH_EX ->
  ASSEMBLE.

A channel that is run to `close` is modelled as the finite sequence of values
sent on it, and a Go `rune` as a Dafny `char`. Each process is a method with the
loop of the Go function: it receives from an input sequence and sends by
appending to an output sequence. ASSEMBLE keeps its fixed 125-slot `lineimage`
array and index `i`. Each method is proved equal to a pure function of the
whole input stream (`Squashed`, `Disassembled`, `Assembled`). The lemmas
state the properties of those functions. The pipelines are plain composition
of the stages.

Files: `runes.dfy` (constants: `*`, `↑`, space, 80, 125), `copy.dfy`,
`squash.dfy`, `disassemble.dfy`, `assemble.dfy`, `pipelines.dfy`.

Three points of the Go code are modelled as follows:

- `S32_SQUASH` tests `string(c) != "*"`. For every rune this is the same as
  `c != '*'`, so both variants are modelled with the direct rune test.
- In `S34_ASSEMBLE`, `if i <= 124 { i++ }` always increments, because `i` is
  below 125 there. The rewrite `lineimage[i-1] = c` stores the rune that is
  already in that slot. Both steps are kept.
- `lineimage` starts zeroed, as `make([]rune, 125)` does.

## Model

| member | source | states |
|---|---|---|
| `CopyProcess.Copy` | csp/csp.go:87-92 | the stream sent on `east` equals the stream received from `west`, element for element and in order |
| `SquashProcess.Squashed` | csp/csp.go:107-171 | squashing never makes a stream longer |
| `SquashProcess.Squash` | csp/csp.go:107-131 | the strict loop, with its look-ahead receive, sends exactly the strict squash of its input |
| `SquashProcess.SquashEx` | csp/csp.go:146-171 | the lenient loop, which sends a dangling `*` before stopping, sends exactly the lenient squash of its input |
| `SquashProcess.SquashMarkerFree` | csp/csp.go:107-171 | under both variants, an input with no `*` passes through unchanged |
| `SquashProcess.SquashPairs` | csp/csp.go:155-167 | `2m` asterisks in front of any stream become `m` arrows, and the stream after them is squashed on its own |
| `SquashProcess.SquashRun` | csp/csp.go:152-167 | a maximal run of n asterisks at the start of the stream becomes n/2 arrows. When n is odd, one `*` follows them, except when the run ends the stream under the strict variant. The rest of the stream is squashed on its own |
| `SquashProcess.SquashedSplit` | csp/csp.go:146-171 | after a rune other than `*` no pair is pending, so the stream can be cut there and each side squashed on its own, under both variants |
| `SquashProcess.SquashRunWithin` | csp/csp.go:152-167 | the same for every maximal run of asterisks, wherever it stands: what precedes it and what follows it are squashed on their own, and the run gives n/2 arrows and possibly one `*` as above |
| `SquashProcess.StrictDropsDanglingMarker` | csp/csp.go:116-159 | if the input's final run of `*` is odd, the lenient output ends in `*` and the strict output is the lenient one without that `*`. Otherwise the two outputs are equal |
| `SquashProcess.SquashNoAdjacentMarkers` | csp/csp.go:94-97 | under both variants, the output never holds two adjacent `*` |
| `SquashProcess.SquashExFixesNoAdjacent` | csp/csp.go:146-171 | lenient SQUASH leaves unchanged any stream without two adjacent `*` |
| `SquashProcess.SquashExIdempotent` | csp/csp.go:146-171 | running lenient SQUASH again on the output of either variant changes nothing |
| `SquashProcess.SquashExCounts` | csp/csp.go:146-171 | let `pairs` be the number of arrows added. The output is `pairs` runes shorter than the input and has `2*pairs` fewer `*`. Every other rune occurs as often as in the input |
| `SquashProcess.SquashExamples` | csp/csp.go:152-167 | `a**b` gives `a↑b` and `a***b` gives `a↑*b` under both variants. `ab*` gives `ab*` leniently and `ab` strictly |
| `DisassembleProcess.Disassemble` | csp/csp.go:185-199 | the loop over cards, with its reused `cardimage` buffer empty at each new card, sends exactly the disassembled stream |
| `DisassembleProcess.DisassembledLength` | csp/csp.go:185-199 | the stream length is the sum over cards of `min(len, 80) + 1` |
| `DisassembleProcess.DisassembledFullCards` | csp/csp.go:188-196 | cards of at least 80 runes give exactly 81 runes each |
| `DisassembleProcess.DisassembledAppend` | csp/csp.go:187-198 | disassembling two card files in turn concatenates their streams |
| `DisassembleProcess.DisassembledCard` | csp/csp.go:186-197 | a card placed between two card files contributes exactly its kept runes (its first `min(len, 80)` runes) and one space, between the streams of the cards before it and after it. No rune leaks between cards |
| `DisassembleProcess.DisassembledOne` | csp/csp.go:188-196 | a single card gives its kept runes followed by one space |
| `DisassembleProcess.DisassembledRunes` | csp/csp.go:185-199 | every non-space rune sent comes from the kept part (the first 80 runes) of some card |
| `AssembleProcess.Assemble` | csp/csp.go:229-254 | the loop over the fixed `lineimage` buffer and the padding loop send exactly the assembled lines |
| `AssembleProcess.AssembledLines` | csp/csp.go:229-254 | every line has 125 runes. There are `ceil(n/125)` lines, so none for empty input |
| `AssembleProcess.AssembledFlatten` | csp/csp.go:244-250 | the lines, concatenated, give the input followed by spaces up to the next multiple of 125 |
| `AssembleProcess.AssembledFullLine` | csp/csp.go:234-241 | a line flushed because it is full is the input slice `[125j, 125(j+1))` and ends with the rune just received |
| `AssembleProcess.AssembledWholeLines` | csp/csp.go:233-243 | an input that fills whole lines comes back unchanged, with no padding |
| `AssembleProcess.AssembledExamples` | csp/csp.go:229-254 | 125 runes give one line equal to them. 130 runes give that line, then 5 runes followed by 120 spaces |
| `Pipelines.Reformat` | csp/csp.go:265-270 | Reformat prints ASSEMBLE(COPY(DISASSEMBLE(cards))), with COPY the identity |
| `Pipelines.ConwayProblem` | csp/csp.go:279-284 | Conway prints ASSEMBLE(SQUASH_EX(DISASSEMBLE(cards))) |
| `Pipelines.ReformatStream` | csp/csp.go:265-270 | Reformat's lines, concatenated, are the disassembled stream padded with spaces to a multiple of 125 |
| `Pipelines.ReformatRoundTrip` | csp/csp.go:265-270 | when the disassembled stream fills whole lines, the concatenated lines equal it exactly |
| `Pipelines.ReformatOneCard` | csp/csp.go:265-270 | one 80-rune card gives one line: the card, then 45 spaces |
| `Pipelines.DisassembledMarkerFree` | csp/csp.go:185-199 | if no card holds `*`, the disassembled stream holds none |
| `Pipelines.ConwayWithoutMarkers` | csp/csp.go:279-284 | if no card holds `*`, Conway prints the same lines as Reformat |
| `Pipelines.ConwayNoAdjacentMarkers` | csp/csp.go:279-284 | Conway's printed output never holds two adjacent `*`, not even across a line break |

## Left out

- Goroutines, unbuffered-channel blocking and the synchronisation order between stages (csp/csp.go:267-268, 281-282) are not modelled. Each channel is the finite sequence sent before `close`, in FIFO order.
- Streams that are never closed, infinite streams, leaked blocked goroutines and sends on a closed channel are not modelled.
- `close(...)` is modelled only as "the output sequence ends here".
- The UTF-8 encoding done by `string(lineimage)` (csp/csp.go:240, 249) is not modelled. A line is the `seq<char>` of its 125 runes.
- A Go `rune` is any `int32`, but a Dafny `char` is a Unicode scalar value. Surrogate and out-of-range rune values are not modelled.
- The 80-rune capacity of `cardimage` affects only allocation, not behaviour, so the buffer is a sequence.
- The grammar in the package comment (csp/csp.go:1-77) and the commented-out alternative in DISASSEMBLE (csp/csp.go:201-208) are documentation, not behaviour.
