/** Two bases, two exponents: a table of the small combinations a*x + b*y, read with windows
    taken jointly from both exponents (`AbstractGroup::CascadeScalarMultiply`). */
module CascadeMultiplication {
  import opened Bits
  import opened Groups

  /** a*x + b*y, the specification. */
  ghost function Combination<T(!new)>(g: Group<T>, x: T, y: T, a: nat, b: nat): T {
    g.Add(Multiple(g, a, x), Multiple(g, b, y))
  }

  lemma CombinationAdd<T(!new)>(g: Group<T>, x: T, y: T, a: nat, b: nat, c: nat, d: nat)
    requires IsAbelian(g)
    ensures g.Add(Combination(g, x, y, a, b), Combination(g, x, y, c, d)) == Combination(g, x, y, a + c, b + d)
  {
    Interchange(g, Multiple(g, a, x), Multiple(g, b, y), Multiple(g, c, x), Multiple(g, d, y));
    MultipleAdd(g, a, c, x);
    MultipleAdd(g, b, d, y);
  }

  lemma CombinationUnits<T(!new)>(g: Group<T>, x: T, y: T)
    requires IsAbelian(g)
    ensures Combination(g, x, y, 1, 0) == x && Combination(g, x, y, 0, 1) == y
    ensures Combination(g, x, y, 0, 0) == g.identity
  {
    MultipleOne(g, x);
    MultipleOne(g, y);
    assert Neutral(g, x) && Neutral(g, y) && Neutral(g, g.identity);
  }

  // ----- the table: entry (a, b) is at index (b << w) + a

  type Pair = (nat, nat)

  function Index(w: nat, p: Pair): int {
    Shl(p.1, w) + p.0
  }

  ghost predicate InTable(w: nat, p: Pair) {
    p.0 < Pow2(w) && p.1 < Pow2(w)
  }

  lemma IndexInRange(w: nat, p: Pair)
    requires InTable(w, p)
    ensures 0 <= Index(w, p) < Shl(Pow2(w), w)
  {
    ShlMonotonic(0, p.1, w);
    ShlZero(w);
    ShlMonotonic(p.1 + 1, Pow2(w), w);
    ShlAdd(p.1, 1, w);
    ShlOne(w);
  }

  lemma {:induction false} IndexInjective(w: nat, p: Pair, q: Pair)
    requires InTable(w, p) && InTable(w, q) && Index(w, p) == Index(w, q)
    ensures p == q
  {
    ShlOne(w);
    if p.1 < q.1 {
      ShlMonotonic(p.1 + 1, q.1, w);
      ShlAdd(p.1, 1, w);
    } else if q.1 < p.1 {
      ShlMonotonic(q.1 + 1, p.1, w);
      ShlAdd(q.1, 1, w);
    }
  }

  /** The entries in `done` hold their combinations. */
  ghost predicate Filled<T(!new)>(g: Group<T>, x: T, y: T, w: nat, table: seq<T>, done: set<Pair>) {
    && |table| == Shl(Pow2(w), w)
    && forall p :: p in done ==>
         InTable(w, p) && 0 <= Index(w, p) < |table| && table[Index(w, p)] == Combination(g, x, y, p.0, p.1)
  }

  lemma FillEntry<T(!new)>(g: Group<T>, x: T, y: T, w: nat, table: seq<T>, done: set<Pair>, p: Pair)
    requires Filled(g, x, y, w, table, done) && InTable(w, p)
    ensures 0 <= Index(w, p) < |table|
    ensures Filled(g, x, y, w, table[Index(w, p) := Combination(g, x, y, p.0, p.1)], done + {p})
  {
    IndexInRange(w, p);
    forall q | q in done + {p}
      ensures InTable(w, q) && 0 <= Index(w, q) < |table|
      ensures q != p ==> Index(w, q) != Index(w, p)
    {
      if q != p && Index(w, q) == Index(w, p) {
        IndexInjective(w, q, p);
      }
    }
  }

  /** table[p] = table[from] + table[by], where p is the sum of the two pairs. */
  method Combine<T(!new)>(g: Group<T>, ghost x: T, ghost y: T, w: nat, table: seq<T>, ghost done: set<Pair>,
                          p: Pair, from: Pair, step: Pair)
    returns (table': seq<T>, ghost done': set<Pair>)
    requires IsAbelian(g) && Filled(g, x, y, w, table, done)
    requires from in done && step in done && InTable(w, p) && p == (from.0 + step.0, from.1 + step.1)
    ensures Filled(g, x, y, w, table', done') && done' == done + {p}
  {
    hide IsAbelian, Index;
    CombinationAdd(g, x, y, from.0, from.1, step.0, step.1);
    FillEntry(g, x, y, w, table, done, p);
    table', done' := table[Index(w, p) := g.Add(table[Index(w, from)], table[Index(w, step)])], done + {p};
  }

  /** What the main loop reads: every combination with an odd coefficient. */
  ghost predicate Complete(w: nat, done: set<Pair>) {
    forall p: Pair {:trigger InTable(w, p)} :: InTable(w, p) && (p.0 % 2 == 1 || p.1 % 2 == 1) ==> p in done
  }

  ghost predicate OddColumns(w: nat, done: set<Pair>, columns: nat, rows: nat) {
    forall a: nat, b: nat :: a % 2 == 1 && a < columns && b < rows ==> (a, b) in done
  }

  /** The first two loops: the entries a*x + b*y with a odd. */
  method FillOddColumns<T(!new)>(g: Group<T>, ghost x: T, y: T, w: nat, tableIn: seq<T>, ghost doneIn: set<Pair>)
    returns (table: seq<T>, ghost done: set<Pair>)
    requires IsAbelian(g) && w >= 2 && Filled(g, x, y, w, tableIn, doneIn)
    requires (1, 0) in doneIn && (2, 0) in doneIn && (0, 1) in doneIn
    ensures Filled(g, x, y, w, table, done) && doneIn <= done
    ensures OddColumns(w, done, Pow2(w), Pow2(w))
  {
    hide IsAbelian, Filled, Index;
    var tableSize := Pow2(w);
    table, done := tableIn, doneIn;
    var i := 3;
    while i < tableSize
      invariant i % 2 == 1 && Filled(g, x, y, w, table, done) && doneIn <= done
      invariant forall a: nat :: a % 2 == 1 && a < i && a < tableSize ==> (a, 0) in done
    {
      table, done := Combine(g, x, y, w, table, done, (i, 0), (i - 2, 0), (2, 0));
      i := i + 2;
    }
    i := 1;
    while i < tableSize
      invariant i % 2 == 1 && Filled(g, x, y, w, table, done) && doneIn <= done
      invariant forall a: nat :: a % 2 == 1 && a < tableSize ==> (a, 0) in done
      invariant OddColumns(w, done, if i < tableSize then i else tableSize, tableSize)
    {
      var row := 1;
      while row < tableSize
        invariant 1 <= row <= tableSize && Filled(g, x, y, w, table, done) && doneIn <= done
        invariant forall a: nat :: a % 2 == 1 && a < tableSize ==> (a, 0) in done
        invariant OddColumns(w, done, i, tableSize)
        invariant forall b: nat :: b < row ==> (i, b) in done
      {
        table, done := Combine(g, x, y, w, table, done, (i, row), (i, row - 1), (0, 1));
        row := row + 1;
      }
      i := i + 2;
    }
  }

  ghost predicate OddRows(done: set<Pair>, rows: nat, columns: nat) {
    forall a: nat, b: nat :: b % 2 == 1 && b < rows && a < columns ==> (a, b) in done
  }

  /** One run of the innermost of the last two loops: the even columns of one odd row. */
  method FillRow<T(!new)>(g: Group<T>, x: T, ghost y: T, w: nat, row: nat, tableIn: seq<T>, ghost doneIn: set<Pair>)
    returns (table: seq<T>, ghost done: set<Pair>)
    requires IsAbelian(g) && w >= 2 && Filled(g, x, y, w, tableIn, doneIn) && row % 2 == 1 && row < Pow2(w)
    requires (1, 0) in doneIn && (0, row) in doneIn
    requires forall a: nat :: a % 2 == 1 && a < Pow2(w) ==> (a, row) in doneIn
    ensures Filled(g, x, y, w, table, done) && doneIn <= done
    ensures forall a: nat :: a < Pow2(w) ==> (a, row) in done
  {
    hide IsAbelian, Filled, Index, RowDone, Pow2;
    var tableSize := Pow2(w);
    TableSizeEven(w);
    table, done := tableIn, doneIn;
    var column := 2;
    RowStarts(doneIn, row, tableSize);
    while column < tableSize
      invariant 2 <= column <= tableSize && column % 2 == 0
      invariant Filled(g, x, y, w, table, done) && doneIn <= done
      invariant RowDone(done, row, column, tableSize)
    {
      RowEntry(done, row, column, tableSize);
      ghost var before := done;
      table, done := Combine(g, x, y, w, table, done, (column, row), (column - 1, row), (1, 0));
      RowStep(before, done, row, column, tableSize);
      column := column + 2;
    }
    RowEnds(done, row, column, tableSize);
  }

  lemma TableSizeEven(w: nat)
    requires w >= 1
    ensures Pow2(w) % 2 == 0 && Pow2(w) >= 2
  {
  }

  /** In this row all columns up to `column` are done, and all odd ones. */
  ghost predicate RowDone(done: set<Pair>, row: nat, column: nat, tableSize: nat) {
    forall a: nat :: a < column || (a % 2 == 1 && a < tableSize) ==> (a, row) in done
  }

  lemma RowStarts(done: set<Pair>, row: nat, tableSize: nat)
    requires (0, row) in done && tableSize >= 2
    requires forall a: nat :: a % 2 == 1 && a < tableSize ==> (a, row) in done
    ensures RowDone(done, row, 2, tableSize)
  {
  }

  lemma RowEntry(done: set<Pair>, row: nat, column: nat, tableSize: nat)
    requires RowDone(done, row, column, tableSize) && column >= 1
    ensures (column - 1, row) in done
  {
  }

  lemma RowStep(before: set<Pair>, done: set<Pair>, row: nat, column: nat, tableSize: nat)
    requires RowDone(before, row, column, tableSize) && done == before + {(column, row)}
    requires column % 2 == 0 && tableSize % 2 == 0 && column < tableSize
    ensures RowDone(done, row, column + 2, tableSize)
  {
    assert (column + 1) % 2 == 1;
  }

  lemma RowEnds(done: set<Pair>, row: nat, column: nat, tableSize: nat)
    requires RowDone(done, row, column, tableSize) && tableSize <= column
    ensures forall a: nat :: a < tableSize ==> (a, row) in done
  {
  }

  /** The last two loops: the entries a*x + b*y with b odd and a even. */
  method FillOddRows<T(!new)>(g: Group<T>, x: T, ghost y: T, w: nat, tableIn: seq<T>, ghost doneIn: set<Pair>)
    returns (table: seq<T>, ghost done: set<Pair>)
    requires IsAbelian(g) && w >= 2 && Filled(g, x, y, w, tableIn, doneIn)
    requires (1, 0) in doneIn && (0, 1) in doneIn && (0, 2) in doneIn && OddColumns(w, doneIn, Pow2(w), Pow2(w))
    ensures Filled(g, x, y, w, table, done) && doneIn <= done
    ensures Complete(w, done)
  {
    hide IsAbelian, Filled, Index;
    var tableSize := Pow2(w);
    table, done := tableIn, doneIn;
    var i := 3;
    while i < tableSize
      invariant i % 2 == 1 && Filled(g, x, y, w, table, done) && doneIn <= done
      invariant forall b: nat :: b % 2 == 1 && b < i && b < tableSize ==> (0, b) in done
    {
      table, done := Combine(g, x, y, w, table, done, (0, i), (0, i - 2), (0, 2));
      i := i + 2;
    }
    ghost var columnZero := done;
    i := 1;
    while i < tableSize
      invariant i % 2 == 1 && Filled(g, x, y, w, table, done) && columnZero <= done
      invariant OddRows(done, if i < tableSize then i else tableSize, tableSize)
    {
      assert OddColumns(w, done, tableSize, tableSize) by {
        assert doneIn <= done;
      }
      table, done := FillRow(g, x, y, w, i, table, done);
      i := i + 2;
    }
    CompleteByRowsAndColumns(w, done);
  }

  lemma CompleteByRowsAndColumns(w: nat, done: set<Pair>)
    requires OddColumns(w, done, Pow2(w), Pow2(w)) && OddRows(done, Pow2(w), Pow2(w))
    ensures Complete(w, done)
  {
    forall p: Pair | InTable(w, p) && (p.0 % 2 == 1 || p.1 % 2 == 1)
      ensures p in done
    {
      assert p == (p.0, p.1);
    }
  }

  lemma UnitIndices(w: nat)
    requires w >= 1
    ensures Index(w, (1, 0)) == 1 && Index(w, (0, 1)) == Pow2(w) && 0 <= Shl(Pow2(w), w)
  {
    ShlZero(w);
    ShlOne(w);
    IndexInRange(w, (0, 0));
  }

  /** The whole table for window size w: complete, for any contents of the fresh vector. */
  method FillTable<T(!new)>(g: Group<T>, x: T, y: T, w: nat) returns (table: seq<T>, ghost done: set<Pair>)
    requires IsAbelian(g) && w >= 1
    ensures Filled(g, x, y, w, table, done) && Complete(w, done)
    ensures forall p: Pair {:trigger InTable(w, p)} :: InTable(w, p) && (p.0 % 2 == 1 || p.1 % 2 == 1) ==>
      0 <= Index(w, p) < |table| && table[Index(w, p)] == Combination(g, x, y, p.0, p.1)
  {
    hide IsAbelian, Index;
    var tableSize := Pow2(w);
    CombinationUnits(g, x, y);
    UnitIndices(w);
    table, done := seq(Shl(tableSize, w), _ => g.blank), {};
    FillEntry(g, x, y, w, table, done, (1, 0));
    table, done := table[1 := x], done + {(1, 0)};
    FillEntry(g, x, y, w, table, done, (0, 1));
    table, done := table[tableSize := y], done + {(0, 1)};
    if w == 1 {
      table, done := Combine(g, x, y, w, table, done, (1, 1), (1, 0), (0, 1));
    } else {
      assert Pow2(w) >= 4 by {
        Pow2Monotonic(2, w);
      }
      table, done := Combine(g, x, y, w, table, done, (2, 0), (1, 0), (1, 0));
      table, done := Combine(g, x, y, w, table, done, (0, 2), (0, 1), (0, 1));
      table, done := FillOddColumns(g, x, y, w, table, done);
      table, done := FillOddRows(g, x, y, w, table, done);
    }
  }

  // ----- the main loop

  const UNSIGNED_MAX := 0xFFFF_FFFF

  /** `power` holds the bits of e from i up to the position of the previous window (or all bits
      from i up, while there was none). */
  ghost predicate Tracks(e: nat, firstTime: bool, prevPosition: nat, i: nat, power: nat) {
    if firstTime then Shr(e, i) == power
    else
      && i <= prevPosition
      && Shr(e, i) == Shl(Shr(e, prevPosition), prevPosition - i) + power
      && power < Pow2(prevPosition - i)
  }

  lemma TracksNextBit(e: nat, firstTime: bool, prevPosition: nat, i: nat, power: nat)
    requires Tracks(e, firstTime, prevPosition, i + 1, power)
    ensures Tracks(e, firstTime, prevPosition, i, 2 * power + if GetBit(e, i) then 1 else 0)
  {
    assert Shr(e, i) == 2 * Shr(e, i + 1) + if GetBit(e, i) then 1 else 0;
  }

  method Doublings<T(!new)>(g: Group<T>, ghost x: T, ghost y: T, start: T, count: nat, ghost a: nat, ghost b: nat)
    returns (result: T)
    requires IsAbelian(g) && start == Combination(g, x, y, a, b)
    ensures Shl(a, count) >= 0 && Shl(b, count) >= 0
    ensures result == Combination(g, x, y, Shl(a, count), Shl(b, count))
  {
    hide IsAbelian, Combination;
    result := start;
    for k := 0 to count
      invariant Shl(a, k) >= 0 && Shl(b, k) >= 0
      invariant result == Combination(g, x, y, Shl(a, k), Shl(b, k))
    {
      CombinationAdd(g, x, y, Shl(a, k), Shl(b, k), Shl(a, k), Shl(b, k));
      result := g.Double(result);
    }
  }

  /** The inner halving loop: strips common factors of two. The unsigned counter of squarings
      wraps around only if there were more factors than squarings. */
  method Halve(power1In: nat, power2In: nat, squaresIn: nat)
    returns (power1: nat, power2: nat, squaresBefore: nat, squaresAfter: nat)
    ensures Shl(power1, squaresAfter) == power1In && Shl(power2, squaresAfter) == power2In
    ensures power1 <= power1In && power2 <= power2In
    ensures power1 % 2 == 1 || power2 % 2 == 1 || (power1 == power2 == 0 && power1In == power2In == 0)
    ensures power1In < Pow2(squaresIn) && power2In < Pow2(squaresIn) ==> squaresBefore + squaresAfter == squaresIn
  {
    power1, power2, squaresBefore, squaresAfter := power1In, power2In, squaresIn, 0;
    while (power1 > 0 || power2 > 0) && power1 % 2 == 0 && power2 % 2 == 0
      invariant Shl(power1, squaresAfter) == power1In && Shl(power2, squaresAfter) == power2In
      invariant power1 <= power1In && power2 <= power2In
      invariant power1 == power2 == 0 ==> power1In == power2In == 0
      invariant power1In < Pow2(squaresIn) && power2In < Pow2(squaresIn) ==>
        squaresBefore + squaresAfter == squaresIn && power1 < Pow2(squaresBefore) && power2 < Pow2(squaresBefore)
      decreases power1 + power2
    {
      ShlAdd(power1 / 2, power1 / 2, squaresAfter);
      ShlAdd(power2 / 2, power2 / 2, squaresAfter);
      power1, power2 := power1 / 2, power2 / 2;
      squaresBefore := if squaresBefore == 0 then UNSIGNED_MAX else squaresBefore - 1;
      squaresAfter := squaresAfter + 1;
    }
  }

  lemma ShiftedWindow(e: nat, high: nat, before: nat, after: nat, odd: nat)
    requires e == Shl(high, before + after) + Shl(odd, after)
    ensures Shl(high, before) >= 0 && e == Shl(Shl(high, before) + odd, after)
  {
    ShlAdd(Shl(high, before), odd, after);
    ShlShl(high, before, after);
    ShlMonotonic(0, high, before);
    ShlZero(before);
  }

  /** One window joined to the result: squarings before it, one table entry, squarings after it. */
  method ReadWindow<T(!new)>(g: Group<T>, ghost x: T, ghost y: T, w: nat, table: seq<T>, ghost done: set<Pair>,
                             resultIn: T, firstTime: bool, prevPosition: nat, i: nat, power1: nat, power2: nat,
                             ghost e1: nat, ghost e2: nat)
    returns (result: T)
    requires IsAbelian(g) && Filled(g, x, y, w, table, done) && Complete(w, done)
    requires i <= prevPosition && power1 < Pow2(w) && power2 < Pow2(w)
    requires Tracks(e1, firstTime, prevPosition, i, power1) && Tracks(e2, firstTime, prevPosition, i, power2)
    requires if firstTime then power1 > 0 || power2 > 0
             else resultIn == Combination(g, x, y, Shr(e1, prevPosition), Shr(e2, prevPosition))
    ensures result == Combination(g, x, y, Shr(e1, i), Shr(e2, i))
  {
    hide IsAbelian, Combination;
    var odd1, odd2, before, after := Halve(power1, power2, prevPosition - i);
    ghost var entry: Pair := (odd1, odd2);
    assert odd1 > 0 || odd2 > 0 ==> InTable(w, entry) && entry in done;
    var sum := resultIn;
    if firstTime {
      sum := table[Shl(odd2, w) + odd1];
      sum := Doublings(g, x, y, sum, after, odd1, odd2);
    } else {
      ghost var high1, high2 := Shr(e1, prevPosition), Shr(e2, prevPosition);
      ShiftedWindow(Shr(e1, i), high1, before, after, odd1);
      ShiftedWindow(Shr(e2, i), high2, before, after, odd2);
      sum := Doublings(g, x, y, sum, before, high1, high2);
      if odd1 > 0 || odd2 > 0 {
        CombinationAdd(g, x, y, Shl(high1, before), Shl(high2, before), odd1, odd2);
        sum := g.Add(sum, table[Shl(odd2, w) + odd1]);
      }
      sum := Doublings(g, x, y, sum, after, Shl(high1, before) + odd1, Shl(high2, before) + odd2);
    }
    result := sum;
  }

  lemma {:induction false} TopBitsNonzero(e: nat, i: nat)
    requires i < BitCount(e)
    ensures Shr(e, i) > 0
    decreases BitCount(e) - i
  {
    TopBit(e);
    if i + 1 < BitCount(e) {
      TopBitsNonzero(e, i + 1);
    }
  }

  lemma PrefixNonzero(e1: nat, e2: nat, expLen: nat, i: nat, prevPosition: nat, power1: nat, power2: nat)
    requires i < expLen && (expLen == BitCount(e1) || expLen == BitCount(e2))
    requires Tracks(e1, true, prevPosition, i, power1) && Tracks(e2, true, prevPosition, i, power2)
    ensures power1 > 0 || power2 > 0
  {
    if BitCount(e1) == expLen {
      TopBitsNonzero(e1, i);
    } else {
      TopBitsNonzero(e2, i);
    }
  }

  lemma TracksReset(e: nat, i: nat)
    ensures Tracks(e, false, i, i, 0)
  {
  }

  lemma TracksStart(e: nat, expLen: nat)
    requires BitCount(e) <= expLen
    ensures Tracks(e, true, if expLen == 0 then 0 else expLen - 1, expLen, 0)
    ensures expLen == 0 ==> e == 0
  {
    HighBitsClear(e, expLen);
  }

  lemma WindowTop(w: nat, power: nat)
    requires w >= 1 && 2 * power < Pow2(w)
    ensures 2 * power + 1 < Pow2(w)
  {
  }

  /** e1*x + e2*y, in any abelian group, for all non-negative exponents. */
  method CascadeScalarMultiply<T(!new)>(g: Group<T>, x: T, e1: nat, y: T, e2: nat) returns (result: T)
    requires IsAbelian(g)
    ensures result == Combination(g, x, y, e1, e2)
  {
    hide IsAbelian, Combination, Filled, Complete, Tracks, Pow2;
    var expLen := if BitCount(e1) > BitCount(e2) then BitCount(e1) else BitCount(e2);
    TracksStart(e1, expLen);
    TracksStart(e2, expLen);
    if expLen == 0 {
      CombinationUnits(g, x, y);
      return g.identity;
    }
    var w := if expLen <= 46 then 1 else if expLen <= 260 then 2 else 3;
    var tableSize := Pow2(w);
    var table;
    ghost var done;
    table, done := FillTable(g, x, y, w);

    result := g.blank;
    var power1: nat, power2: nat, prevPosition: nat := 0, 0, expLen - 1;
    var firstTime := true;
    var i := expLen - 1;
    while i >= 0
      invariant -1 <= i < expLen
      invariant if firstTime then prevPosition == expLen - 1 && i >= 0 else i < prevPosition < expLen
      invariant 2 * power1 < tableSize && 2 * power2 < tableSize
      invariant Tracks(e1, firstTime, prevPosition, i + 1, power1) && Tracks(e2, firstTime, prevPosition, i + 1, power2)
      invariant !firstTime ==> result == Combination(g, x, y, Shr(e1, prevPosition), Shr(e2, prevPosition))
      invariant i == -1 ==> prevPosition == 0
    {
      WindowTop(w, power1);
      WindowTop(w, power2);
      TracksNextBit(e1, firstTime, prevPosition, i, power1);
      TracksNextBit(e2, firstTime, prevPosition, i, power2);
      power1 := 2 * power1 + if GetBit(e1, i) then 1 else 0;
      power2 := 2 * power2 + if GetBit(e2, i) then 1 else 0;
      if i == 0 || 2 * power1 >= tableSize || 2 * power2 >= tableSize {
        if firstTime {
          PrefixNonzero(e1, e2, expLen, i, prevPosition, power1, power2);
        }
        result := ReadWindow(g, x, y, w, table, done, result, firstTime, prevPosition, i, power1, power2, e1, e2);
        firstTime, prevPosition := false, i;
        power1, power2 := 0, 0;
        TracksReset(e1, i);
        TracksReset(e2, i);
      }
      i := i - 1;
    }
  }
}
