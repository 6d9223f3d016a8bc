# cells_py: Wolfram's elementary cellular automata, modelled in Dafny

`src/cells.py` draws Wolfram's one-dimensional, two-state, radius-1 cellular
automata. It works in three parts:

- A `Ruleset` decodes a rule number into an eight-entry table. Each entry maps
  a neighbourhood, written as three binary digits, to the centre cell's next
  state.
- A `Generation` is a row of 0/1 cells. `evolve_copy` builds the next row with
  circular neighbours.
- A `State` drives the cycle. It appends rows while they fit on the screen.
  Then it either waits `CYCLE_DELAY_S` seconds, resets to a fresh random row
  and moves to the next rule of a shuffled list, or it pauses.

This project models that core. The files are:

- `formatting.dfy`: the Python conversions the rule table is built from
  (`bin(n)[2:]`, `str(n)`, `rjust`, `int` of a digit) and the bits of a
  natural number.
- `rules.dfy`: the `Ruleset` and its decoding loop.
- `cells.dfy`: the `Generation` class, with its row of cells as a `seq<int>`
  field updated in place.
- `cycle.dfy`: the `State` class and the functions `reset`, `render_cycle`,
  `resize_screen` and `loop`, as methods on it.
- `wrappers.dfy`: `Option`.

The environment is modelled as inputs:

- The wall clock `time()` becomes parameters. `render_cycle` reads it twice: `now` for the delay test (`src/cells.py:296`) and `later` for the start of a new delay (`src/cells.py:316`).
- The draws of `randint` and `random() < 0.5` in `randomize` become `chosen`, the sequence of indices that were set to 1.
- `shuffle` becomes a given sequence with the same multiset of elements as the rule list.

Cell size and screen offsets are exact numbers: `real` for the cell size, `int` for the offsets.

## Notes on behaviour

The model follows the code as written, including these behaviours:

- **No rule validation.** `Ruleset.__init__` never rejects a rule number.
  - A number above 255 has more than eight binary digits, and only its first eight are read.
  - A negative number fails on `int('b')`, so `Rules.NewRuleset` requires a non-negative number.
- **Python indexing.** `get_cell` and `set_cell` accept negative indices, counting from the end.
- **Error path of `get_rule`.** The lookup raises `KeyError` for anything but three bits. `Rules.GetRule` returns `None` then.
- **Row length after `reset`.** `reset` builds the new first row with length `len(s.generations)` (`src/cells.py:278`). That is the number of rows stored, `gen_num + 1`, not the row length the program started with. `Cycle.State.Reset` states this as written.

## Model

| member | source | states |
|---|---|---|
| Formatting.DigitValue | src/cells.py:67 | `int(c)` of a digit character is a digit 0..9 whose character is `c` |
| Formatting.Bin | src/cells.py:59 | `bin(n)[2:]` is non-empty and made only of binary digits |
| Formatting.Str | src/cells.py:76 | `str(n)` is one character exactly for 0..9, and then it is that digit |
| Formatting.RJust | src/cells.py:59 | `rjust` gives length max(width, len), keeps the string as a suffix and pads on the left with the fill character |
| Formatting.BitIsDivMod | src/cells.py:59 | the k-th binary digit of n is `(n // 2**k) % 2` |
| Formatting.PaddedBinDigit | src/cells.py:59 | character i of `bin(n)[2:].rjust(w, "0")` for n < 2**w is bit w-1-i of n |
| Formatting.ByteAllOnes | src/cells.py:59 | all eight bits of 255 are 1 |
| Rules.NeighbourhoodIsPaddedBin | src/cells.py:66 | the key `bin(k)[2:].rjust(3, "0")` is the three bits of k, most significant first |
| Rules.NeighbourhoodValue | src/cells.py:66 | a neighbourhood value below 8 is 4a + 2b + c of its own three bits |
| Rules.NeighbourhoodInjective | src/cells.py:65-67 | the eight neighbourhood keys are distinct, so the loop fills eight entries |
| Rules.KeysStep | src/cells.py:65-66 | the keys of values lo..7 plus the key of lo - 1 are the keys of lo - 1..7 |
| Rules.RuleBin | src/cells.py:59 | `rule_bin` has at least eight characters, all binary digits |
| Rules.RuleDigits | src/cells.py:59-67 | `int(rule_bin[i])` for i = 0..7 are eight values, each 0 or 1 |
| Rules.RuleBinDigit | src/cells.py:59-67 | for a rule number up to 255, digit 7 - k of `rule_bin` is bit k of the number |
| Rules.FillStep | src/cells.py:65-67 | one loop step adds neighbourhood 7 - i with digit i of `rule_bin` and keeps the entries already filled |
| Rules.FillEntry | src/cells.py:65-67 | after a loop step every neighbourhood filled so far, old or new, holds its own digit of `rule_bin` |
| Rules.NewRuleset | src/cells.py:51-67 | the table holds exactly the eight neighbourhoods, value k mapped to digit 7 - k of `rule_bin`, every entry a bit |
| Rules.DecodesComplete | src/cells.py:61-67 | a decoded table has exactly the eight neighbourhood keys, each mapped to a bit |
| Rules.DecodesUnique | src/cells.py:51-67 | a rule number decodes to one table only |
| Rules.DecodedEntry | src/cells.py:51-67 | two tables decoded from one rule number have the same keys with the same values |
| Rules.KeyOfBits | src/cells.py:76 | for bits a, b, c the key `str(a)+str(b)+str(c)` is the neighbourhood of value 4a+2b+c |
| Rules.PatternBits | src/cells.py:76 | the bits 2, 1, 0 of 4a + 2b + c are a, b, c, for bits a, b, c |
| Rules.KeyIsBits | src/cells.py:76 | only three bits spell a table key |
| Rules.GetRule | src/cells.py:70-76 | on a complete table `get_rule` succeeds exactly when a, b, c are bits, and then answers a bit |
| Rules.DecodedBit | src/cells.py:59-67 | for a rule number up to 255, neighbourhood value k maps to bit k of the number |
| Rules.DecodedLookup | src/cells.py:59-76 | for a rule number up to 255 and bits a, b, c, `get_rule` answers bit 4a + 2b + c of the number |
| Rules.GetRuleBit | src/cells.py:59-76 | Wolfram's numbering: `get_rule(a, b, c) == (r // 2**(4a+2b+c)) % 2` for r in 0..255 |
| Rules.RuleZeroIsAllZeros | src/cells.py:59-76 | rule 0 answers 0 for every neighbourhood |
| Rules.RuleFullIsAllOnes | src/cells.py:59-76 | rule 255 answers 1 for every neighbourhood |
| Cells.Zeros | src/cells.py:90 | `[0] * n` is n zeros, empty for n <= 0 |
| Cells.Slot | src/cells.py:151 | a Python index in range denotes one position, counting from the end when negative |
| Cells.Clamp | src/cells.py:159 | `set_cell` stores a bit, 0 exactly when given 0 |
| Cells.Apply | src/cells.py:141 | on a complete table the value stored for a neighbourhood of bits is the rule's own answer: the clamp in `set_cell` never changes it |
| Cells.NextCell | src/cells.py:137-141 | the new state of cell i is a bit, the rule applied to cell i and its circular left and right neighbours |
| Cells.Evolved | src/cells.py:125-143 | the evolved row has the same length and only bits |
| Cells.Iterate | src/cells.py:311 | repeated evolution keeps the length and only bits |
| Cells.NeighbourIndices | src/cells.py:137-139 | `(n+i-1) % n` and `(i+1) % n` are the circular left and right neighbours: cell 0 reads n-1, cell n-1 reads 0 |
| Cells.EvolvedAt | src/cells.py:136-141 | cell i of the evolved row is the rule applied to cell i and its circular left and right neighbours |
| Cells.EvolvedFromIndices | src/cells.py:137-141 | at the indices `(n+i-1) % n`, i and `(i+1) % n` the lookup is defined and its clamped answer is cell i of the evolved row |
| Cells.EvolvedCellBit | src/cells.py:131-141 | cell i of the evolved row is bit 4l + 2c + r of the rule number, for the cell and its circular neighbours |
| Cells.EvolvedCell | src/cells.py:131-141 | cell i of the evolved row is bit 4l+2c+r of the rule number, from the cell and its circular neighbours |
| Cells.SingleSeedPatterns | src/cells.py:136-141 | the neighbourhood values of a ten-cell row with one live cell at 5 |
| Cells.Rule90Example | src/cells.py:125-143 | rule 90 turns a single live cell at 5 of 10 into live cells at 4 and 6 |
| Cells.Randomized | src/cells.py:176-183 | the randomized row has the old length and only bits |
| Cells.RandomizedHasLiveCell | src/cells.py:176-183 | a randomized row has a live cell, and its live cells are exactly the chosen indices |
| Cells.RandomizedRepeat | src/cells.py:182-183 | drawing an index again leaves the row as it was |
| Cells.Generation.constructor | src/cells.py:84-90 | a new row of `len` cells is all zeros |
| Cells.Generation.GetCell | src/cells.py:146-151 | returns the cell at a Python index, a bit on a valid row |
| Cells.Generation.GetLen | src/cells.py:162-167 | returns the number of cells |
| Cells.Generation.SetCell | src/cells.py:154-159 | stores 0 for 0 and 1 otherwise at the index, no other cell and not the length changes, the row stays all bits |
| Cells.Generation.Randomize | src/cells.py:170-183 | the row becomes 1 at the chosen indices and 0 elsewhere, with its old length |
| Cells.Generation.EvolveCopy | src/cells.py:125-143 | a fresh row that is the evolution of this one under the rule, which is left unchanged |
| Cycle.Offsets | src/cells.py:343-347 | the offsets are non-negative, at most one is positive, and they centre the shorter side within one pixel |
| Cycle.NextCycleIndex | src/cells.py:282-284 | the position advances to (i + 1) mod the list length, stays in range, and moves whenever the list has two or more rules |
| Cycle.AdvanceIsModular | src/cells.py:282-284 | after k resets from position i the traversal is at (i + k) mod the list length |
| Cycle.FullPassReturns | src/cells.py:282-284 | after as many resets as there are rules, the traversal is back at its start |
| Cycle.Resized | src/cells.py:335-347 | a resize to (x, y) sets the screen size to (x, y), scales the cell size by `min(x, y) / min(w, h)` and centres with `Offsets(x, y)` |
| Cycle.GeometryAfterStep | src/cells.py:395-401 | handling the first event of a tick and then the rest gives the presentation after all of them |
| Cycle.NoResizeKeepsGeometry | src/cells.py:395-401 | a tick without window-size events leaves cell size, offsets and screen size as they were |
| Cycle.SingleResize | src/cells.py:395-401 | a tick whose one event resizes to (x, y) has exactly `resize_screen`'s effect on the presentation |
| Cycle.LastResizeDecides | src/cells.py:395-401 | the last window-size event of a tick decides the screen size and the offsets |
| Cycle.ResizeCentres | src/cells.py:395-401 | after a tick with any window-size event the offsets centre the screen |
| Cycle.HistorySingle | src/cells.py:278-280 | a single row of bits is a valid history under any complete table |
| Cycle.HistoryAppend | src/cells.py:311-312 | appending the evolution of the last row keeps every row the evolution of the one above |
| Cycle.State.RowsAreIterates | src/cells.py:311-312 | row i of a valid state is the first row evolved i times under the current rule |
| Cycle.State.RowFits | src/cells.py:303-306 | the fit test holds exactly when rows + 1 rows and the two margins fit in the screen height |
| Cycle.State.RowFitsFewer | src/cells.py:303-306 | with a non-negative cell size, when a row fits every earlier row fits too |
| Cycle.State.constructor | src/cells.py:223-267 | one row, generation 0, no delay, not paused, position 0, and the rule `rule_value`, or the first shuffled rule for -1 |
| Cycle.State.Reset | src/cells.py:270-286 | one fresh random row of length `gen_num + 1`, generation 0, the next position in the list and its rule; nothing else changes |
| Cycle.State.Step | src/cells.py:303-318 | appends the evolved row when the next row fits, otherwise starts the delay at the given time or pauses; the invariant and the fit of drawn rows are kept |
| Cycle.State.RenderCycle | src/cells.py:289-318 | nothing changes while the delay runs; once it has run out the state resets, leaves the delay and steps; a new delay starts at the second clock reading |
| Cycle.State.ResizeScreen | src/cells.py:321-347 | the new screen size, the cell size scaled by the ratio of the smaller sides, centring offsets; the automaton is unchanged |
| Cycle.State.HandleEvent | src/cells.py:396-401 | a quit event clears the running flag; a window-size event resizes as `resize_screen` does; the automaton is unchanged |
| Cycle.State.HandleEvents | src/cells.py:395-401 | the running flag is cleared exactly when a quit event came, the automaton is unchanged, and the presentation is `GeometryAfter` of the events |
| Cycle.State.Loop | src/cells.py:390-407 | the presentation is `GeometryAfter` of the events; a paused state stays paused with its automaton unchanged; otherwise `render_cycle` runs on that presentation: unchanged while waiting, a reset once the delay is over, the next row appended when it fits, else the delay or the pause |

## Left out

- `Generation.draw` and the redraw in `resize_screen` are left out. So are the `SCREEN.fill`, `lock`, `unlock` and `display.flip` calls. They are pygame drawing calls.
- `setup` and the `__main__` block are left out. They cover window, icon and asset loading, global configuration, and the process entry point. The `State` constructor takes their results as parameters.
- Event polling (`pg.event.get`) and frame pacing (`CLOCK.tick(60)`) are left out. `Cycle.State.Loop` takes the tick's events as a sequence instead.
- Randomness and the clock are not modelled. `randint`, `random`, `shuffle` and `time()` are the inputs `chosen`, `shuffled`, `now` and `later`. The model does not capture the probability distributions.
- Floating-point rounding is not modelled. The cell size, the delay and the times are exact reals. So `cell_size * delta_zoom` and the fit test `new_y + cell_size <= screen_bottom` have no rounding.
- Aliasing of the configured rule list is not modelled. The source shuffles the `RULES` list it was given, in place. The model keeps the shuffled copy as `randomRules`.
- Cells.Generation.GetCell: requires an index within the row. `self._cells[index]` raises IndexError otherwise (`src/cells.py:151`), and the model leaves that error out.
- Cells.Generation.SetCell: requires an index within the row. The source raises IndexError otherwise (`src/cells.py:159`).
- Cells.Generation.Randomize: requires at least one draw, each within the row, so it excludes a row of length 0. For that row `randint(0, -1)` raises ValueError (`src/cells.py:181`).
- Cycle.State.constructor: requires a non-empty shuffled list when `rule_value` is -1. The source raises IndexError on an empty list (`src/cells.py:262`).
- Cycle.State.ResizeScreen: requires the smaller side of the old screen to be non-zero. The source raises ZeroDivisionError otherwise (`src/cells.py:335`).
- Cycle.State.HandleEvents: requires, through `ResizesDefined`, the same non-zero smaller side before every window-size event, for the same reason.
- Cycle.State.Loop: requires the same of its events, for the same reason.
- Cycle.State.Reset: requires, through `CanReset`, three things the source does not check:
  - a non-empty rule list. On an empty list `cycle_index` wraps to 0 and `s.random_rules[s.cycle_index]` raises IndexError (`src/cells.py:286`). The constructor accepts an empty list when `rule_value` is not -1, so the model can reach this state.
  - a non-negative next rule number. The source would fail inside `Ruleset` otherwise.
  - draws that index a row of `len(generations)` cells. The source would fail inside `randint` otherwise.
- Cycle.State.RenderCycle: inherits `Reset`'s requirement, including the non-empty rule list, whenever the delay has run out.
- Cycle.State.Loop: inherits the same requirement through `render_cycle` when not paused and the delay has run out.
