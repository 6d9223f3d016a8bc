/**
 * Generation: one row of binary cells, and its evolution into the next row
 * under a decoded rule with circular (toroidal) neighbours.
 */
module Cells {
  import opened Wrappers
  import opened Formatting
  import opened Rules

  ghost predicate AllBits(cells: seq<int>) {
    forall i :: 0 <= i < |cells| ==> IsBit(cells[i])
  }

  /** `[0] * n`: n zeros, or nothing when n is not positive. */
  function Zeros(n: int): (z: seq<int>)
    ensures |z| == if n < 0 then 0 else n
    ensures forall i :: 0 <= i < |z| ==> z[i] == 0
  {
    if n <= 0 then [] else seq(n, _ => 0)
  }

  /** The position a Python list index denotes: a negative index counts from
      the end. */
  function Slot(len: int, index: int): (k: int)
    requires -len <= index < len
    ensures 0 <= k < len
    ensures index == k || index == k - len
  {
    if index < 0 then len + index else index
  }

  /** The value `set_cell` stores for `cell`: 0 for 0, 1 for anything else. */
  function Clamp(cell: int): (v: int)
    ensures IsBit(v)
    ensures v == 0 <==> cell == 0
  {
    if cell == 0 then 0 else 1
  }

  /** The left neighbour of cell i in a circular row of n cells. */
  function Left(n: int, i: int): (j: int)
    requires 0 <= i < n
    ensures 0 <= j < n
  {
    if i == 0 then n - 1 else i - 1
  }

  /** The right neighbour of cell i in a circular row of n cells. */
  function Right(n: int, i: int): (j: int)
    requires 0 <= i < n
    ensures 0 <= j < n
  {
    if i == n - 1 then 0 else i + 1
  }

  /** The state `set_cell` stores for a cell whose neighbourhood is (a, b, c):
      the rule's answer, clamped. On a complete table the answer is already a
      bit, so the clamp keeps it. */
  function Apply(rs: Ruleset, a: int, b: int, c: int): (v: int)
    requires Complete(rs) && IsBit(a) && IsBit(b) && IsBit(c)
    ensures IsBit(v)
    ensures GetRule(rs, a, b, c) == Some(v)
  {
    Clamp(GetRule(rs, a, b, c).value)
  }

  /** The new state of cell i: the rule applied to the cell and its neighbours
      at `(n + i - 1) % n` and `(i + 1) % n`. */
  function NextCell(rs: Ruleset, cells: seq<int>, i: int): (v: int)
    requires Complete(rs) && AllBits(cells) && 0 <= i < |cells|
    ensures IsBit(v)
    ensures v == Apply(rs, cells[Left(|cells|, i)], cells[i], cells[Right(|cells|, i)])
  {
    var n := |cells|;
    NeighbourIndices(n, i);
    Apply(rs, cells[(n + i - 1) % n], cells[i], cells[(i + 1) % n])
  }

  /** The row that `evolve_copy` builds from `cells`. */
  function Evolved(cells: seq<int>, rs: Ruleset): (next: seq<int>)
    requires Complete(rs) && AllBits(cells)
    ensures |next| == |cells| && AllBits(next)
  {
    seq(|cells|, i requires 0 <= i < |cells| => NextCell(rs, cells, i))
  }

  /** The row after `steps` evolutions of `cells`. */
  function Iterate(cells: seq<int>, rs: Ruleset, steps: nat): (row: seq<int>)
    requires Complete(rs) && AllBits(cells)
    ensures |row| == |cells| && AllBits(row)
  {
    if steps == 0 then cells else Evolved(Iterate(cells, rs, steps - 1), rs)
  }

  /** The modular indices of the source are the circular neighbours: cell 0
      reads cell n - 1 on its left and cell n - 1 reads cell 0 on its right. */
  lemma {:induction false} NeighbourIndices(n: int, i: int)
    requires 0 <= i < n
    ensures (n + i - 1) % n == Left(n, i)
    ensures (i + 1) % n == Right(n, i)
  {
    if i == 0 {
      DivUnique(n + i - 1, n, 0, n - 1);
    } else {
      DivUnique(n + i - 1, n, 1, i - 1);
    }
    if i == n - 1 {
      DivUnique(i + 1, n, 1, 0);
    } else {
      DivUnique(i + 1, n, 0, i + 1);
    }
  }

  /** Cell i of the evolved row is the rule applied to the cell and its
      circular neighbours. */
  lemma EvolvedAt(cells: seq<int>, rs: Ruleset, i: int)
    requires Complete(rs) && AllBits(cells) && 0 <= i < |cells|
    ensures Evolved(cells, rs)[i] == Apply(rs, cells[Left(|cells|, i)], cells[i], cells[Right(|cells|, i)])
  {
    NeighbourIndices(|cells|, i);
  }

  /** Cell i of the evolved row, for a rule number up to 255, is bit
      4l + 2c + r of the number, where l, c, r are cell i and its circular
      left and right neighbours. */
  lemma EvolvedCellBit(cells: seq<int>, rs: Ruleset, ruleValue: nat, i: int)
    requires ruleValue <= 255 && Decodes(rs, ruleValue)
    requires AllBits(cells) && 0 <= i < |cells|
    ensures Complete(rs)
    ensures Evolved(cells, rs)[i] ==
              Bit(ruleValue, PatternValue(cells[Left(|cells|, i)], cells[i], cells[Right(|cells|, i)]))
  {
    var n := |cells|;
    DecodesComplete(rs, ruleValue);
    EvolvedAt(cells, rs, i);
    DecodedLookup(rs, ruleValue, cells[Left(n, i)], cells[i], cells[Right(n, i)]);
  }

  /** What `evolve_copy` stores at cell i, the clamped answer of the rule for
      the cells at `(n + i - 1) % n`, i and `(i + 1) % n`, is defined and is
      cell i of the evolved row. */
  lemma EvolvedFromIndices(cells: seq<int>, rs: Ruleset, i: int)
    requires Complete(rs) && AllBits(cells) && 0 <= i < |cells|
    ensures var n := |cells|;
            var answer := GetRule(rs, cells[(n + i - 1) % n], cells[i], cells[(i + 1) % n]);
            answer.Some? && Clamp(answer.value) == Evolved(cells, rs)[i]
  {
    var n := |cells|;
    NeighbourIndices(n, i);
    assert Evolved(cells, rs)[i] == NextCell(rs, cells, i);
  }

  /** Wolfram's rule on a circular row: cell i of the evolved row is
      `(r // 2**(4l + 2c + r')) % 2` for rule number r and the cell's
      neighbourhood l, c, r'. */
  lemma EvolvedCell(cells: seq<int>, rs: Ruleset, ruleValue: nat, i: int)
    requires ruleValue <= 255 && Decodes(rs, ruleValue)
    requires AllBits(cells) && 0 <= i < |cells|
    ensures Complete(rs)
    ensures Evolved(cells, rs)[i] ==
              (ruleValue / Pow2(PatternValue(cells[Left(|cells|, i)], cells[i], cells[Right(|cells|, i)]))) % 2
  {
    EvolvedCellBit(cells, rs, ruleValue, i);
    BitIsDivMod(ruleValue, PatternValue(cells[Left(|cells|, i)], cells[i], cells[Right(|cells|, i)]));
  }

  /** Ten cells with a single live cell at index 5. */
  function SingleSeed(): (cells: seq<int>)
    ensures |cells| == 10 && AllBits(cells)
  {
    seq(10, j => if j == 5 then 1 else 0)
  }

  /** The neighbourhood values around the single seed: 1 left of it, 2 on it,
      4 right of it and 0 everywhere else. */
  lemma SingleSeedPatterns(i: int)
    requires 0 <= i < 10
    ensures PatternValue(SingleSeed()[Left(10, i)], SingleSeed()[i], SingleSeed()[Right(10, i)])
              == if i == 4 then 1 else if i == 5 then 2 else if i == 6 then 4 else 0
  {
    if i == 0 {
      assert Left(10, i) == 9 && Right(10, i) == 1;
    } else if i == 9 {
      assert Left(10, i) == 8 && Right(10, i) == 0;
    } else {
      assert Left(10, i) == i - 1 && Right(10, i) == i + 1;
    }
  }

  /** 90 is 01011010 in binary: bits 1, 3, 4 and 6 are set. */
  lemma NinetyBits(k: nat)
    requires k < 8
    ensures Bit(90, k) == if k == 1 || k == 3 || k == 4 || k == 6 then 1 else 0
  {
    assert Bit(90, 0) == 0 && Bit(90, 1) == 1;
    assert Bit(90, 2) == Bit(22, 0) && Bit(90, 3) == Bit(11, 0) && Bit(90, 4) == Bit(5, 0);
    assert Bit(90, 5) == Bit(2, 0) && Bit(90, 6) == Bit(1, 0) && Bit(90, 7) == Bit(0, 0);
  }

  /** Rule 90 on ten cells with a single live cell at index 5: the next row
      has live cells exactly at 4 and 6. */
  lemma Rule90Example(rs: Ruleset)
    requires Decodes(rs, 90)
    ensures Complete(rs)
    ensures |Evolved(SingleSeed(), rs)| == 10
    ensures forall i :: 0 <= i < 10 ==> Evolved(SingleSeed(), rs)[i] == if i == 4 || i == 6 then 1 else 0
  {
    DecodesComplete(rs, 90);
    var cells := SingleSeed();
    forall i | 0 <= i < 10 ensures Evolved(cells, rs)[i] == if i == 4 || i == 6 then 1 else 0 {
      SingleSeedPatterns(i);
      EvolvedCellBit(cells, rs, 90, i);
      NinetyBits(PatternValue(cells[Left(10, i)], cells[i], cells[Right(10, i)]));
    }
  }

  /** The row `randomize` leaves: 1 at every chosen index, 0 elsewhere. */
  function Randomized(n: nat, chosen: seq<int>): (cells: seq<int>)
    ensures |cells| == n && AllBits(cells)
  {
    seq(n, i => if i in chosen then 1 else 0)
  }

  /** Indices as `randint(0, n - 1)` draws them: at least one, each in range. */
  predicate ValidChoice(chosen: seq<int>, n: int) {
    1 <= |chosen| && forall k :: 0 <= k < |chosen| ==> 0 <= chosen[k] < n
  }

  /** A randomized row has at least one live cell, and its live cells are
      exactly the chosen ones. */
  lemma RandomizedHasLiveCell(n: nat, chosen: seq<int>)
    requires ValidChoice(chosen, n)
    ensures exists i :: 0 <= i < n && Randomized(n, chosen)[i] == 1
    ensures forall i :: 0 <= i < n ==> (Randomized(n, chosen)[i] == 1 <==> i in chosen)
  {
    assert Randomized(n, chosen)[chosen[0]] == 1;
  }

  /** Choosing an index again changes nothing. */
  lemma RandomizedRepeat(n: nat, chosen: seq<int>, k: int)
    requires k in chosen
    ensures Randomized(n, chosen + [k]) == Randomized(n, chosen)
  {
    forall i | 0 <= i < n ensures (i in chosen + [k]) == (i in chosen) {
      assert i in chosen + [k] ==> i in chosen || i == k;
    }
  }

  /** Writing target[i] at position i extends a prefix that agrees with
      target by one. */
  lemma PrefixStep(before: seq<int>, after: seq<int>, target: seq<int>, i: int)
    requires 0 <= i < |before| == |after| == |target|
    requires forall j :: 0 <= j < i ==> before[j] == target[j]
    requires forall j :: 0 <= j < |after| && j != i ==> after[j] == before[j]
    requires after[i] == target[i]
    ensures forall j :: 0 <= j < i + 1 ==> after[j] == target[j]
  {
  }

  /** Generation: a row of cells that `set_cell` and `randomize` update in
      place. */
  class Generation {
    var cells: seq<int>

    /** Every cell is 0 or 1. */
    ghost predicate Valid()
      reads this
    {
      AllBits(cells)
    }

    /** `Generation(len)`: a row of len zeros. */
    constructor (len: int)
      ensures cells == Zeros(len) && Valid()
    {
      cells := Zeros(len);
    }

    /** `get_cell(index)`: the cell at a Python index. */
    function GetCell(index: int): (cell: int)
      reads this
      requires -|cells| <= index < |cells|
      ensures 0 <= index ==> cell == cells[index]
      ensures index < 0 ==> cell == cells[|cells| + index]
      ensures Valid() ==> IsBit(cell)
    {
      cells[Slot(|cells|, index)]
    }

    /** `get_len()`. */
    function GetLen(): (n: nat)
      reads this
      ensures n == |cells|
    {
      |cells|
    }

    /** `set_cell(index, cell)`: stores 0 for 0 and 1 for any other value;
        no other cell changes and the row keeps its length. */
    method SetCell(index: int, cell: int)
      requires -|cells| <= index < |cells|
      modifies this
      ensures |cells| == |old(cells)|
      ensures cells[Slot(|cells|, index)] == Clamp(cell)
      ensures forall i :: 0 <= i < |cells| && i != Slot(|cells|, index) ==> cells[i] == old(cells)[i]
      ensures old(Valid()) ==> Valid()
    {
      cells := cells[Slot(|cells|, index) := Clamp(cell)];
    }

    /** `randomize()`: zeroes the row, then sets the first chosen index to 1
        and, once per further chosen index (one per `random() < 0.5` draw),
        that index to 1. */
    method Randomize(chosen: seq<int>)
      requires ValidChoice(chosen, |cells|)
      modifies this
      ensures cells == Randomized(|old(cells)|, chosen)
      ensures Valid()
    {
      var len := GetLen();
      cells := Zeros(len);
      SetCell(chosen[0], 1);
      var k := 1;
      while k < |chosen|
        invariant 1 <= k <= |chosen|
        invariant |cells| == len
        invariant forall i :: 0 <= i < len ==> cells[i] == if i in chosen[..k] then 1 else 0
      {
        SetCell(chosen[k], 1);
        assert chosen[..k + 1] == chosen[..k] + [chosen[k]];
        k := k + 1;
      }
      assert chosen[..k] == chosen;
    }

    /** `evolve_copy(ruleset)`: a new row of the same length, cell i the rule
        applied to cells (n + i - 1) % n, i and (i + 1) % n of this row, which
        is left unchanged. */
    method EvolveCopy(ruleset: Ruleset) returns (next: Generation)
      requires Valid() && Complete(ruleset)
      ensures fresh(next) && next.Valid()
      ensures next.cells == Evolved(cells, ruleset)
    {
      var genLen := GetLen();
      next := new Generation(genLen);
      ghost var evolved := Evolved(cells, ruleset);
      for i := 0 to genLen
        invariant |next.cells| == genLen && next.Valid()
        invariant forall j :: 0 <= j < i ==> next.cells[j] == evolved[j]
      {
        NeighbourIndices(genLen, i);
        var prevCell := GetCell((genLen + i - 1) % genLen);
        var cell := GetCell(i);
        var nextCell := GetCell((i + 1) % genLen);
        EvolvedFromIndices(cells, ruleset, i);
        ghost var before := next.cells;
        next.SetCell(i, GetRule(ruleset, prevCell, cell, nextCell).value);
        PrefixStep(before, next.cells, evolved, i);
      }
    }
  }
}
