/**
 * The cycle state machine: the program state, `reset`, one tick of
 * `render_cycle`, the centring offsets of `resize_screen`, and the pause gate
 * and event handling of `loop`. The clock readings are the parameters `now`
 * and `later`; random draws are the parameter `chosen`; the shuffled rule
 * list is given to the constructor.
 */
module Cycle {
  import opened Formatting
  import opened Rules
  import opened Cells

  /** The pygame events the loop reacts to; every other kind is ignored. */
  datatype Event = Quit | WindowSizeChanged(x: int, y: int) | OtherEvent

  function Min(a: int, b: int): int {
    if a <= b then a else b
  }

  /** The centring offsets `(off_x, off_y)` for a window of the given size:
      half the surplus of the longer side (rounded down), 0 on the other
      side. The square of side min(width, height) then sits in the middle. */
  function Offsets(width: int, height: int): (off: (int, int))
    ensures 0 <= off.0 && 0 <= off.1
    ensures off.0 == 0 || off.1 == 0
    ensures width <= height ==> off.0 == 0
    ensures height <= width ==> off.1 == 0
    ensures width > height ==> height + 2 * off.0 <= width <= height + 2 * off.0 + 1
    ensures height > width ==> width + 2 * off.1 <= height <= width + 2 * off.1 + 1
  {
    var xDiff := width - height;
    var yDiff := height - width;
    (if xDiff <= 0 then 0 else xDiff / 2, if yDiff <= 0 then 0 else yDiff / 2)
  }

  /** The position in the rule list after one reset: one further, back to 0
      past the end. */
  function NextCycleIndex(index: int, count: int): (next: int)
    requires 0 <= index < count
    ensures 0 <= next < count
    ensures next == (index + 1) % count
    ensures 1 < count ==> next != index
  {
    if index + 1 >= count then 0 else index + 1
  }

  /** The position in the rule list after `steps` resets. */
  function Advance(index: int, count: int, steps: nat): (pos: int)
    requires 0 <= index < count
    ensures 0 <= pos < count
  {
    if steps == 0 then index else NextCycleIndex(Advance(index, count, steps - 1), count)
  }

  lemma ModSucc(x: nat, n: nat)
    requires 0 < n
    ensures (x % n + 1) % n == (x + 1) % n
  {
    var q, r := x / n, x % n;
    if r + 1 < n {
      DivUnique(x + 1, n, q, r + 1);
      DivUnique(r + 1, n, 0, r + 1);
    } else {
      DivUnique(x + 1, n, q + 1, 0);
      DivUnique(r + 1, n, 1, 0);
    }
  }

  /** The traversal visits the rule list in order, wrapping modulo its
      length: after k resets from position i it stands at (i + k) % count. */
  lemma {:induction false} AdvanceIsModular(index: int, count: int, steps: nat)
    requires 0 <= index < count
    ensures Advance(index, count, steps) == (index + steps) % count
  {
    if steps == 0 {
      DivUnique(index, count, 0, index);
    } else {
      AdvanceIsModular(index, count, steps - 1);
      ModSucc(index + steps - 1, count);
    }
  }

  /** After one full pass of `count` resets the traversal is back where it
      started. */
  lemma FullPassReturns(index: int, count: int)
    requires 0 <= index < count
    ensures Advance(index, count, count) == index
  {
    AdvanceIsModular(index, count, count);
    DivUnique(index + count, count, 1, index);
  }

  /** The events are handled without dividing by zero: each window-size event
      divides by the smaller side of the size before it. */
  predicate ResizesDefined(events: seq<Event>, width: int, height: int) {
    if events == [] then true
    else match events[0]
      case WindowSizeChanged(x, y) => Min(width, height) != 0 && ResizesDefined(events[1..], x, y)
      case _ => ResizesDefined(events[1..], width, height)
  }

  /** The presentation parameters: cell size, offsets and screen size. */
  type Layout = (real, int, int, int, int)

  /** `resize_screen` for a window of size (x, y): the new size, the cell size
      scaled by the ratio of the smaller sides, and the centring offsets. */
  function Resized(g: Layout, x: int, y: int): (r: Layout)
    requires Min(g.3, g.4) != 0
    ensures r.3 == x && r.4 == y && (r.1, r.2) == Offsets(x, y)
    ensures r.0 == g.0 * (Min(x, y) as real / Min(g.3, g.4) as real)
  {
    var offsets := Offsets(x, y);
    (g.0 * (Min(x, y) as real / Min(g.3, g.4) as real), offsets.0, offsets.1, x, y)
  }

  /** The presentation after the events of one tick, from g: each window-size
      event resizes, every other event leaves it. */
  function GeometryAfter(events: seq<Event>, g: Layout): Layout
    requires ResizesDefined(events, g.3, g.4)
    decreases |events|
  {
    if events == [] then g
    else match events[0]
      case WindowSizeChanged(x, y) => GeometryAfter(events[1..], Resized(g, x, y))
      case _ => GeometryAfter(events[1..], g)
  }

  /** A tick without window-size events leaves the presentation as it was. */
  lemma {:induction false} NoResizeKeepsGeometry(events: seq<Event>, g: Layout)
    requires ResizesDefined(events, g.3, g.4)
    requires forall k :: 0 <= k < |events| ==> !events[k].WindowSizeChanged?
    ensures GeometryAfter(events, g) == g
    decreases |events|
  {
    if events != [] {
      assert forall k :: 0 <= k < |events[1..]| ==> events[1..][k] == events[k + 1];
      NoResizeKeepsGeometry(events[1..], g);
    }
  }

  /** After a tick with a window-size event the offsets centre the screen. */
  lemma {:induction false} ResizeCentres(events: seq<Event>, g: Layout)
    requires ResizesDefined(events, g.3, g.4)
    requires exists k :: 0 <= k < |events| && events[k].WindowSizeChanged?
    ensures var r := GeometryAfter(events, g); (r.1, r.2) == Offsets(r.3, r.4)
    decreases |events|
  {
    var rest := events[1..];
    GeometryAfterStep(events, g);
    if exists j :: 0 <= j < |rest| && rest[j].WindowSizeChanged? {
      ResizeCentres(rest, AfterEvent(events[0], g));
    } else {
      forall j | 0 < j < |events| ensures !events[j].WindowSizeChanged? {
        assert events[j] == rest[j - 1];
      }
      LastResizeDecides(events, g, 0);
    }
  }

  /** The presentation after one event. */
  function AfterEvent(event: Event, g: Layout): Layout
    requires event.WindowSizeChanged? ==> Min(g.3, g.4) != 0
  {
    if event.WindowSizeChanged? then Resized(g, event.x, event.y) else g
  }

  /** Handling the first event and then the rest is handling them all. */
  lemma GeometryAfterStep(events: seq<Event>, g: Layout)
    requires events != [] && ResizesDefined(events, g.3, g.4)
    ensures ResizesDefined(events[1..], AfterEvent(events[0], g).3, AfterEvent(events[0], g).4)
    ensures GeometryAfter(events, g) == GeometryAfter(events[1..], AfterEvent(events[0], g))
  {
  }

  /** The last window-size event of a tick decides the screen size and the
      offsets: they are its size and the offsets that centre it. */
  lemma {:induction false} LastResizeDecides(events: seq<Event>, g: Layout, k: int)
    requires ResizesDefined(events, g.3, g.4)
    requires 0 <= k < |events| && events[k].WindowSizeChanged?
    requires forall j :: k < j < |events| ==> !events[j].WindowSizeChanged?
    ensures GeometryAfter(events, g).3 == events[k].x && GeometryAfter(events, g).4 == events[k].y
    ensures (GeometryAfter(events, g).1, GeometryAfter(events, g).2) == Offsets(events[k].x, events[k].y)
    decreases |events|
  {
    var rest := events[1..];
    var next := AfterEvent(events[0], g);
    GeometryAfterStep(events, g);
    if k == 0 {
      forall j | 0 <= j < |rest| ensures !rest[j].WindowSizeChanged? {
        assert rest[j] == events[j + 1];
      }
      NoResizeKeepsGeometry(rest, next);
    } else {
      assert rest[k - 1] == events[k];
      LastResizeDecides(rest, next, k - 1);
    }
  }

  /** A tick whose only event is a window-size event to (x, y) has
      `resize_screen`'s effect: the screen becomes x by y, the cell size is
      scaled by the ratio of the smaller sides, the offsets centre it. */
  lemma SingleResize(g: Layout, x: int, y: int)
    requires Min(g.3, g.4) != 0
    ensures ResizesDefined([WindowSizeChanged(x, y)], g.3, g.4)
    ensures GeometryAfter([WindowSizeChanged(x, y)], g) ==
              (g.0 * (Min(x, y) as real / Min(g.3, g.4) as real), Offsets(x, y).0, Offsets(x, y).1, x, y)
  {
    var events := [WindowSizeChanged(x, y)];
    assert events[1..] == [];
    GeometryAfterStep(events, g);
    var r := Resized(g, x, y);
    assert AfterEvent(events[0], g) == r;
    assert GeometryAfter(events[1..], r) == r;
    assert r.0 == g.0 * (Min(x, y) as real / Min(g.3, g.4) as real);
    assert r.1 == Offsets(x, y).0 && r.2 == Offsets(x, y).1;
    assert r.3 == x && r.4 == y;
  }

  /** The rows on screen: every row of bits, and each row the evolution of
      the one above it under the rule. */
  ghost predicate History(rows: seq<Generation>, rs: Ruleset)
    reads rows
  {
    Complete(rs) &&
    (forall i :: 0 <= i < |rows| ==> rows[i].Valid()) &&
    (forall i :: 0 <= i < |rows| - 1 ==> rows[i + 1].cells == Evolved(rows[i].cells, rs))
  }

  /** A single row of bits is a history under any complete rule. */
  lemma HistorySingle(row: Generation, rs: Ruleset)
    requires row.Valid() && Complete(rs)
    ensures History([row], rs)
  {
  }

  /** Appending the evolution of the last row keeps the history. */
  lemma HistoryAppend(rows: seq<Generation>, next: Generation, rs: Ruleset)
    requires History(rows, rs) && rows != []
    requires next.Valid() && next.cells == Evolved(rows[|rows| - 1].cells, rs)
    ensures History(rows + [next], rs)
  {
    var longer := rows + [next];
    forall i | 0 <= i < |longer| - 1
      ensures longer[i + 1].cells == Evolved(longer[i].cells, rs)
    {
      if i < |rows| - 1 {
        assert longer[i + 1] == rows[i + 1] && longer[i] == rows[i];
      }
    }
  }

  /** State: everything the program keeps between ticks. */
  class State {
    const cycleDelayS: real
    const shouldCycle: bool
    const randomRules: seq<int>
    var cellSize: real
    var cycleDelayStartS: real
    var isCycleDelay: bool
    var generations: seq<Generation>
    var genNum: int
    var isPaused: bool
    var isRunning: bool
    var offX: int
    var offY: int
    var cycleIndex: int
    var ruleset: Ruleset
    var screenWidth: int
    var screenHeight: int

    /** The invariant: one stored row more than the generation count, every
        row of bits, each row the evolution of the one before under the
        current rule, the position within the rule list, and at most one of
        "in delay" and "paused", each only in its own mode. */
    ghost predicate Valid()
      reads this, generations
    {
      0 <= genNum && |generations| == genNum + 1 &&
      History(generations, ruleset) &&
      (if randomRules == [] then cycleIndex == 0 else 0 <= cycleIndex < |randomRules|) &&
      !(isCycleDelay && isPaused) &&
      (isCycleDelay ==> shouldCycle) &&
      (isPaused ==> !shouldCycle) &&
      (!isCycleDelay ==> cycleDelayStartS == 0.0)
    }

    /** Row i of a valid state is the first row evolved i times under the
        current rule. */
    lemma {:induction false} RowsAreIterates(i: int)
      requires Valid() && 0 <= i <= genNum
      ensures generations[i].cells == Iterate(generations[0].cells, ruleset, i)
    {
      if i > 0 {
        RowsAreIterates(i - 1);
      }
    }

    /** The presentation parameters: cell size, offsets and screen size. */
    function Geometry(): Layout
      reads this
    {
      (cellSize, offX, offY, screenWidth, screenHeight)
    }

    /** The automaton: the rows, the generation count, the rule and its
        position in the list, and the delay and pause flags. */
    function Automaton(): (seq<Generation>, int, Ruleset, int, bool, real, bool)
      reads this
    {
      (generations, genNum, ruleset, cycleIndex, isCycleDelay, cycleDelayStartS, isPaused)
    }

    /** The fit test of `render_cycle`: the row after `rows` rows still ends
        above the bottom margin, that is, rows + 1 rows and the two margins
        fit in the screen height. */
    predicate RowFits(rows: int): (fits: bool)
      reads this
      ensures fits <==> 2.0 * offY as real + (rows + 1) as real * cellSize <= screenHeight as real
    {
      offY as real + rows as real * cellSize + cellSize <= screenHeight as real - offY as real
    }

    /** With a non-negative cell size, when a row fits so does every earlier
        one. */
    lemma RowFitsFewer(fewer: int, rows: int)
      requires 0.0 <= cellSize && fewer <= rows && RowFits(rows)
      ensures RowFits(fewer)
    {
      assert (rows - fewer) as real * cellSize >= 0.0;
      assert rows as real * cellSize == fewer as real * cellSize + (rows - fewer) as real * cellSize;
    }

    /** Every row drawn so far lies within the margins. */
    predicate RowsFit()
      reads this
    {
      offY as real + genNum as real * cellSize <= screenHeight as real - offY as real
    }

    /** In the delay between cycles and the delay has not yet run out. */
    predicate Waiting(now: real)
      reads this
    {
      isCycleDelay && now - cycleDelayStartS < cycleDelayS
    }

    /** In the delay between cycles and the delay has run out. */
    predicate ResetDue(now: real)
      reads this
    {
      isCycleDelay && !(now - cycleDelayStartS < cycleDelayS)
    }

    /** What `reset` needs: a non-empty rule list whose next rule number is not
        negative, and valid random draws for a row of `len(generations)`
        cells. */
    predicate CanReset(chosen: seq<int>)
      reads this
    {
      randomRules != [] &&
      (0 <= cycleIndex < |randomRules| ==> 0 <= randomRules[NextCycleIndex(cycleIndex, |randomRules|)]) &&
      ValidChoice(chosen, |generations|)
    }

    /** `State.__init__`: the given first row, generation 0, no delay, not
        paused, offsets 0, position 0 in the shuffled rule list, and the rule
        `rule_value`, or the first shuffled rule when it is -1. */
    constructor (generation: Generation, cellSize: real, cycleDelayS: real, ruleValue: int,
                 rules: seq<int>, shuffled: seq<int>, shouldCycle: bool,
                 screenWidth: int, screenHeight: int)
      requires generation.Valid()
      requires multiset(shuffled) == multiset(rules)
      requires ruleValue == -1 ==> shuffled != [] && 0 <= shuffled[0]
      requires ruleValue != -1 ==> 0 <= ruleValue
      ensures Valid()
      ensures generations == [generation] && genNum == 0 && cycleIndex == 0
      ensures randomRules == shuffled
      ensures Decodes(ruleset, if ruleValue == -1 then shuffled[0] else ruleValue)
      ensures this.cycleDelayS == cycleDelayS && this.shouldCycle == shouldCycle
      ensures Geometry() == (cellSize, 0, 0, screenWidth, screenHeight)
      ensures !isCycleDelay && cycleDelayStartS == 0.0 && !isPaused && isRunning
    {
      this.cycleDelayS := cycleDelayS;
      this.shouldCycle := shouldCycle;
      this.cellSize := cellSize;
      cycleDelayStartS := 0.0;
      isCycleDelay := false;
      generations := [generation];
      genNum := 0;
      isPaused := false;
      isRunning := true;
      offX, offY := 0, 0;
      cycleIndex := 0;
      randomRules := shuffled;
      var initial := if ruleValue == -1 then shuffled[0] else ruleValue;
      var decoded := NewRuleset(initial);
      ruleset := decoded;
      this.screenWidth := screenWidth;
      this.screenHeight := screenHeight;
    }

    /** `reset`: a single fresh random row whose length is the number of rows
        stored before (gen_num + 1), generation 0, the next rule of the list.
        Nothing else changes. */
    method Reset(chosen: seq<int>)
      requires Valid() && CanReset(chosen)
      modifies this
      ensures Valid()
      ensures |generations| == 1 && genNum == 0 && fresh(generations[0])
      ensures generations[0].cells == Randomized(old(|generations|), chosen)
      ensures |generations[0].cells| == old(genNum) + 1
      ensures cycleIndex == NextCycleIndex(old(cycleIndex), |randomRules|)
      ensures Decodes(ruleset, randomRules[cycleIndex])
      ensures Geometry() == old(Geometry())
      ensures isCycleDelay == old(isCycleDelay) && cycleDelayStartS == old(cycleDelayStartS)
      ensures isPaused == old(isPaused) && isRunning == old(isRunning)
    {
      var first := new Generation(|generations|);
      first.Randomize(chosen);
      generations := [first];
      genNum := 0;
      cycleIndex := cycleIndex + 1;
      if cycleIndex >= |randomRules| {
        cycleIndex := 0;
      }
      ruleset := NewRuleset(randomRules[cycleIndex]);
      HistorySingle(generations[0], ruleset);
    }

    /** The stepping part of `render_cycle`: when the next row fits, the
        evolution of the current row is appended and the generation count
        grows by one; otherwise the rows stay and the program enters the
        delay (cycling) or pauses (not cycling). */
    method Step(now: real)
      requires Valid() && !isCycleDelay
      modifies this
      ensures Valid()
      ensures Geometry() == old(Geometry()) && isRunning == old(isRunning)
      ensures cycleIndex == old(cycleIndex) && ruleset == old(ruleset)
      ensures old(RowFits(genNum)) ==>
                genNum == old(genNum) + 1 && generations[..genNum] == old(generations) &&
                fresh(generations[genNum]) &&
                generations[genNum].cells == Evolved(generations[genNum - 1].cells, ruleset) &&
                !isCycleDelay && cycleDelayStartS == old(cycleDelayStartS) && isPaused == old(isPaused)
      ensures !old(RowFits(genNum)) ==>
                generations == old(generations) && genNum == old(genNum) &&
                (shouldCycle ==> isCycleDelay && cycleDelayStartS == now && isPaused == old(isPaused)) &&
                (!shouldCycle ==> isPaused && !isCycleDelay && cycleDelayStartS == old(cycleDelayStartS))
      ensures old(RowsFit()) ==> RowsFit()
    {
      var newY := offY as real + genNum as real * cellSize;
      var screenBottom := screenHeight as real - offY as real;
      if newY + cellSize <= screenBottom {
        var next := generations[genNum].EvolveCopy(ruleset);
        HistoryAppend(generations, next, ruleset);
        generations := generations + [next];
        genNum := genNum + 1;
        assert genNum as real * cellSize == (genNum - 1) as real * cellSize + cellSize;
      } else if shouldCycle {
        isCycleDelay := true;
        cycleDelayStartS := now;
      } else {
        isPaused := true;
      }
    }

    /** `render_cycle`: one tick. While the delay has not run out nothing
        changes; once it has, the program resets (next rule, fresh row) and
        leaves the delay; then it steps. A reset happens only after at least
        the configured delay. The source reads the clock twice: `now` for the
        delay test and `later` for the start of a new delay. */
    method RenderCycle(now: real, later: real, chosen: seq<int>)
      requires Valid()
      requires ResetDue(now) ==> CanReset(chosen)
      modifies this
      ensures Valid()
      ensures Geometry() == old(Geometry()) && isRunning == old(isRunning)
      ensures old(Waiting(now)) ==> unchanged(this)
      ensures old(ResetDue(now)) ==>
                cycleIndex == NextCycleIndex(old(cycleIndex), |randomRules|) &&
                Decodes(ruleset, randomRules[cycleIndex]) &&
                fresh(generations[0]) && generations[0].cells == Randomized(old(|generations|), chosen) &&
                (RowFits(0) ==> genNum == 1 && !isCycleDelay && cycleDelayStartS == 0.0) &&
                (!RowFits(0) ==> genNum == 0 && isCycleDelay && cycleDelayStartS == later)
      ensures !old(isCycleDelay) ==>
                cycleIndex == old(cycleIndex) && ruleset == old(ruleset) &&
                (old(RowFits(genNum)) ==>
                   genNum == old(genNum) + 1 && generations[..genNum] == old(generations) &&
                   fresh(generations[genNum]) && !isCycleDelay) &&
                (!old(RowFits(genNum)) ==>
                   generations == old(generations) && genNum == old(genNum) &&
                   (shouldCycle ==> isCycleDelay && cycleDelayStartS == later))
      ensures isPaused == (old(isPaused) || (!old(isCycleDelay) && !old(RowFits(genNum)) && !shouldCycle))
      ensures old(RowsFit()) && 2 * offY <= screenHeight ==> RowsFit()
    {
      if isCycleDelay {
        if now - cycleDelayStartS < cycleDelayS {
          return;
        }
        Reset(chosen);
        cycleDelayStartS := 0.0;
        isCycleDelay := false;
      }
      Step(later);
    }

    /** The offset part of `resize_screen`, with the rescaling of the cell
        size by the ratio of the smaller sides: only presentation changes, the
        automaton does not. Any other event is ignored. */
    method ResizeScreen(event: Event)
      requires Valid()
      requires event.WindowSizeChanged? ==> Min(screenWidth, screenHeight) != 0
      modifies this
      ensures Valid()
      ensures !event.WindowSizeChanged? ==> unchanged(this)
      ensures event.WindowSizeChanged? ==>
                screenWidth == event.x && screenHeight == event.y &&
                cellSize == old(cellSize) * (Min(event.x, event.y) as real / Min(old(screenWidth), old(screenHeight)) as real) &&
                (offX, offY) == Offsets(event.x, event.y)
      ensures event.WindowSizeChanged? ==> Geometry() == Resized(old(Geometry()), event.x, event.y)
      ensures Automaton() == old(Automaton()) && isRunning == old(isRunning)
    {
      if !event.WindowSizeChanged? {
        return;
      }
      ghost var before := Geometry();
      var deltaZoom := Min(event.x, event.y) as real / Min(screenWidth, screenHeight) as real;
      screenWidth := event.x;
      screenHeight := event.y;
      cellSize := cellSize * deltaZoom;
      var offsets := Offsets(screenWidth, screenHeight);
      offX, offY := offsets.0, offsets.1;
      ghost var r := Resized(before, event.x, event.y);
      assert r.0 == cellSize;
      assert r.1 == offX && r.2 == offY;
      assert r.3 == screenWidth && r.4 == screenHeight;
      assert Geometry() == r;
    }

    /** One pass of the event loop of `loop`: a quit event clears the running
        flag, a window-size event resizes, any other event is ignored. */
    method HandleEvent(event: Event)
      requires Valid()
      requires event.WindowSizeChanged? ==> Min(screenWidth, screenHeight) != 0
      modifies this
      ensures Valid()
      ensures isRunning == (old(isRunning) && !event.Quit?)
      ensures Automaton() == old(Automaton())
      ensures Geometry() == AfterEvent(event, old(Geometry()))
    {
      if event.Quit? {
        isRunning := false;
      } else if event.WindowSizeChanged? {
        ResizeScreen(event);
      }
    }

    /** The event loop of `loop`: a quit event clears the running flag and a
        window-size event resizes; the automaton does not change and the
        presentation becomes `GeometryAfter(events, ...)`. */
    method HandleEvents(events: seq<Event>)
      requires Valid()
      requires ResizesDefined(events, screenWidth, screenHeight)
      modifies this
      ensures Valid()
      ensures isRunning == (old(isRunning) && Quit !in events)
      ensures generations == old(generations) && genNum == old(genNum)
      ensures ruleset == old(ruleset) && cycleIndex == old(cycleIndex)
      ensures isCycleDelay == old(isCycleDelay) && cycleDelayStartS == old(cycleDelayStartS)
      ensures isPaused == old(isPaused)
      ensures Geometry() == GeometryAfter(events, old(Geometry()))
    {
      for k := 0 to |events|
        invariant Valid()
        invariant isRunning == (old(isRunning) && Quit !in events[..k])
        invariant ResizesDefined(events[k..], screenWidth, screenHeight)
        invariant Automaton() == old(Automaton())
        invariant GeometryAfter(events, old(Geometry())) == GeometryAfter(events[k..], Geometry())
      {
        var event := events[k];
        assert events[k..][1..] == events[k + 1..];
        assert events[..k + 1] == events[..k] + [event];
        GeometryAfterStep(events[k..], Geometry());
        HandleEvent(event);
      }
      assert events[..|events|] == events;
    }

    /** One tick of `loop`: the events are handled, and then, unless paused,
        `render_cycle` runs. While paused the automaton does not change and
        stays paused; otherwise the tick waits out the delay, resets once the
        delay has run out, and appends the next row when it fits, all judged
        on the geometry the events left. */
    method Loop(events: seq<Event>, now: real, later: real, chosen: seq<int>)
      requires Valid()
      requires ResizesDefined(events, screenWidth, screenHeight)
      requires !isPaused && ResetDue(now) ==> CanReset(chosen)
      modifies this
      ensures Valid()
      ensures isRunning == (old(isRunning) && Quit !in events)
      ensures Geometry() == GeometryAfter(events, old(Geometry()))
      ensures old(isPaused) ==>
                isPaused && generations == old(generations) && genNum == old(genNum) &&
                ruleset == old(ruleset) && cycleIndex == old(cycleIndex) &&
                isCycleDelay == old(isCycleDelay) && cycleDelayStartS == old(cycleDelayStartS)
      ensures !old(isPaused) && old(Waiting(now)) ==>
                generations == old(generations) && genNum == old(genNum) &&
                ruleset == old(ruleset) && cycleIndex == old(cycleIndex) &&
                isCycleDelay && cycleDelayStartS == old(cycleDelayStartS)
      ensures !old(isPaused) && old(ResetDue(now)) ==>
                cycleIndex == NextCycleIndex(old(cycleIndex), |randomRules|) &&
                Decodes(ruleset, randomRules[cycleIndex]) &&
                fresh(generations[0]) && generations[0].cells == Randomized(old(|generations|), chosen) &&
                (RowFits(0) ==> genNum == 1 && !isCycleDelay && cycleDelayStartS == 0.0) &&
                (!RowFits(0) ==> genNum == 0 && isCycleDelay && cycleDelayStartS == later)
      ensures !old(isPaused) && !old(isCycleDelay) ==>
                cycleIndex == old(cycleIndex) && ruleset == old(ruleset) &&
                (RowFits(old(genNum)) ==>
                   genNum == old(genNum) + 1 && generations[..genNum] == old(generations) &&
                   fresh(generations[genNum]) && !isCycleDelay) &&
                (!RowFits(old(genNum)) ==>
                   generations == old(generations) && genNum == old(genNum) &&
                   (shouldCycle ==> isCycleDelay && cycleDelayStartS == later))
      ensures isPaused == (old(isPaused) || (!old(isCycleDelay) && !RowFits(old(genNum)) && !shouldCycle))
    {
      HandleEvents(events);
      if !isPaused {
        RenderCycle(now, later, chosen);
      }
    }
  }
}
