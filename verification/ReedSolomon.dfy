/** The Reed-Solomon matrix object: input and output status, base values, and the matrix it computes from them. */
module ReedSolomon {
  import opened Gf16
  import opened Primitive
  import opened GaloisTable
  import opened Bases
  import opened LinearAlgebra
  import opened GaussJordan
  import opened Encoder
  import opened RecoveryEquations
  import opened ErasureCode
  import opened Recoverability
  import opened InPlaceElimination

  datatype OutputRow = OutputRow(present: bool, exponent: nat)

  datatype RsOutcome =
    | Computed
    | TooManyInputBlocks
    | NotEnoughRecoveryBlocks
    | NoOutputBlocks
    | ComputationError
    | InvalidMatrix

  /** The positions below `n` whose status is `want`. */
  function Positions(status: seq<bool>, want: bool, n: nat): (r: seq<nat>)
    requires n <= |status|
    ensures forall i :: 0 <= i < |r| ==> r[i] < n && status[r[i]] == want
    ensures forall i, j :: 0 <= i < j < |r| ==> r[i] < r[j]
  {
    if n == 0 then [] else Positions(status, want, n - 1) + if status[n - 1] == want then [n - 1] else []
  }

  /** The numbers below `n`, once each. */
  ghost predicate Enumerates(q: seq<nat>, n: nat) {
    && (forall g: nat :: g < n ==> g in q)
    && (forall i, j :: 0 <= i < j < |q| ==> q[i] != q[j])
  }

  /** Every position is in exactly one of the two lists. */
  lemma {:induction false} PositionsPartition(status: seq<bool>, n: nat)
    requires n <= |status|
    ensures Enumerates(Positions(status, false, n) + Positions(status, true, n), n)
  {
    if n != 0 {
      PositionsPartition(status, n - 1);
      var (lost, kept) := (Positions(status, false, n - 1), Positions(status, true, n - 1));
      var (lost', kept') := (Positions(status, false, n), Positions(status, true, n));
      var (q, q') := (lost + kept, lost' + kept');
      forall g: nat | g < n
        ensures g in q'
      {
        if g < n - 1 {
          assert g in q;
          assert g in lost || g in kept;
          assert g in lost' || g in kept';
        } else {
          assert g in lost' || g in kept';
        }
      }
      forall i, j | 0 <= i < j < |q'|
        ensures q'[i] != q'[j]
      {
        DistinctInsert(lost, kept, lost', kept', n - 1, i, j);
      }
    }
  }

  lemma DistinctInsert(lost: seq<nat>, kept: seq<nat>, lost': seq<nat>, kept': seq<nat>, m: nat, i: nat, j: nat)
    requires (lost' == lost + [m] && kept' == kept) || (lost' == lost && kept' == kept + [m])
    requires forall a, b :: 0 <= a < b < |lost + kept| ==> (lost + kept)[a] != (lost + kept)[b]
    requires forall a :: 0 <= a < |lost + kept| ==> (lost + kept)[a] < m
    requires i < j < |lost' + kept'|
    ensures (lost' + kept')[i] != (lost' + kept')[j]
  {
    var q := lost + kept;
    if lost' == lost + [m] {
      var a := if i < |lost| then i else i - 1;
      var b := if j < |lost| then j else j - 1;
      if i != |lost| && j != |lost| {
        assert q[a] != q[b];
      } else if i == |lost| {
        assert q[b] < m;
      } else {
        assert q[a] < m;
      }
    } else if j < |q| {
      assert q[i] != q[j];
    } else {
      assert q[i] < m;
    }
  }

  /** The exponents of the rows with the given status, in order. */
  function RowExponents(rows: seq<OutputRow>, want: bool): (r: seq<nat>) {
    if rows == [] then []
    else
      var last := rows[|rows| - 1];
      RowExponents(rows[..|rows| - 1], want) + if last.present == want then [last.exponent] else []
  }

  /** `exponents` are those of all rows with the given status, each once, in the order of the rows, which `at` gives. */
  ghost predicate InRowOrder(rows: seq<OutputRow>, want: bool, exponents: seq<nat>, at: seq<nat>) {
    && |at| == |exponents|
    && (forall k :: 0 <= k < |at| ==>
         at[k] < |rows| && rows[at[k]].present == want && exponents[k] == rows[at[k]].exponent)
    && (forall k, l :: 0 <= k < l < |at| ==> at[k] < at[l])
    && (forall i: nat :: i < |rows| && rows[i].present == want ==> i in at)
  }

  lemma {:induction false} RowExponentsInOrder(rows: seq<OutputRow>, want: bool) returns (at: seq<nat>)
    ensures InRowOrder(rows, want, RowExponents(rows, want), at)
    decreases |rows|
  {
    hide InRowOrder;
    if rows == [] {
      at := [];
      NoRowsInOrder(want);
    } else {
      var (front, last) := (rows[..|rows| - 1], rows[|rows| - 1]);
      at := RowExponentsInOrder(front, want);
      assert rows == front + [last];
      if last.present == want {
        RowWanted(front, last, want, RowExponents(front, want), at);
        at := at + [|front|];
      } else {
        RowPassedOver(front, last, want, RowExponents(front, want), at);
        assert RowExponents(rows, want) == RowExponents(front, want);
      }
    }
  }

  lemma NoRowsInOrder(want: bool)
    ensures InRowOrder([], want, RowExponents([], want), [])
  {}

  lemma RowWanted(rows: seq<OutputRow>, last: OutputRow, want: bool, exponents: seq<nat>, at: seq<nat>)
    requires InRowOrder(rows, want, exponents, at) && last.present == want
    ensures InRowOrder(rows + [last], want, exponents + [last.exponent], at + [|rows|])
  {
    var at' := at + [|rows|];
    forall i: nat | i < |rows| + 1 && (rows + [last])[i].present == want
      ensures i in at'
    {
      assert at'[|at|] == |rows|;
      assert i < |rows| ==> rows[i].present == want;
    }
  }

  lemma RowPassedOver(rows: seq<OutputRow>, last: OutputRow, want: bool, exponents: seq<nat>, at: seq<nat>)
    requires InRowOrder(rows, want, exponents, at) && last.present != want
    ensures InRowOrder(rows + [last], want, exponents, at)
  {}

  lemma {:induction false} RowExponentsGrow(rows: seq<OutputRow>, want: bool, k: nat)
    requires k <= |rows|
    ensures RowExponents(rows[..k], want) <= RowExponents(rows, want)
    decreases |rows|
  {
    if k < |rows| {
      RowExponentsGrow(rows[..|rows| - 1], want, k);
      assert rows[..|rows| - 1][..k] == rows[..k];
    } else {
      assert rows[..k] == rows;
    }
  }

  lemma RowExponentsStep(rows: seq<OutputRow>, want: bool, k: nat)
    requires k < |rows|
    ensures RowExponents(rows[..k + 1], want)
      == RowExponents(rows[..k], want) + if rows[k].present == want then [rows[k].exponent] else []
  {
    assert rows[..k + 1][..k] == rows[..k];
  }

  // ----- the matrices

  function CoefficientRow(database: Vector, index: seq<nat>, exponent: nat): (r: Vector)
    requires forall c :: 0 <= c < |index| ==> index[c] < |database|
    ensures |r| == |index| && forall c :: 0 <= c < |index| ==> r[c] == Coefficient(database[index[c]], exponent)
  {
    seq(|index|, c requires 0 <= c < |index| => Coefficient(database[index[c]], exponent))
  }

  /** Per equation: the present data, and the recovery block the equation uses, if any. */
  function LeftRow(database: Vector, kept: seq<nat>, d: nat, e: nat, r: nat): (row: Vector)
    requires forall c :: 0 <= c < |kept| ==> kept[c] < |database|
    ensures |row| == |kept| + d
  {
    CoefficientRow(database, kept, e) + Unit(d, r)
  }

  /** Per equation: the missing data, and the recovery block the equation makes, if any. */
  function RightRow(database: Vector, lost: seq<nat>, p: nat, e: nat, r: nat): (row: Vector)
    requires forall c :: 0 <= c < |lost| ==> lost[c] < |database|
    ensures |row| == |lost| + p
  {
    CoefficientRow(database, lost, e) + if r < |lost| then Unit(p, p) else Unit(p, r - |lost|)
  }

  ghost predicate IsLeft(m: Matrix, database: Vector, kept: seq<nat>, d: nat, exponents: seq<nat>, k: nat) {
    && (forall c :: 0 <= c < |kept| ==> kept[c] < |database|)
    && |m| == k <= |exponents| && forall r :: 0 <= r < k ==> m[r] == LeftRow(database, kept, d, exponents[r], r)
  }

  ghost predicate IsRight(m: Matrix, database: Vector, lost: seq<nat>, p: nat, exponents: seq<nat>, k: nat) {
    && (forall c :: 0 <= c < |lost| ==> lost[c] < |database|)
    && |m| == k <= |exponents| && forall r :: 0 <= r < k ==> m[r] == RightRow(database, lost, p, exponents[r], r)
  }

  method MakeRow(t: Tables, database: Vector, index: seq<nat>, exponent: nat) returns (row: Vector)
    requires t.Valid() && exponent < COUNT && forall c :: 0 <= c < |index| ==> index[c] < |database|
    ensures row == CoefficientRow(database, index, exponent)
  {
    hide Pow;
    row := [];
    for c := 0 to |index|
      invariant |row| == c && forall i :: 0 <= i < c ==> row[i] == Coefficient(database[index[i]], exponent)
    {
      row := row + [t.Power(database[index[c]], exponent)];
    }
  }

  /** Moves on to the next row with the wanted status. */
  method NextRow(rows: seq<OutputRow>, start: nat, want: bool) returns (next: nat)
    requires start <= |rows|
    ensures start <= next <= |rows| && (next < |rows| ==> rows[next].present == want)
    ensures RowExponents(rows[..next], want) == RowExponents(rows[..start], want)
  {
    next := start;
    while next < |rows| && rows[next].present != want
      invariant start <= next <= |rows|
      invariant RowExponents(rows[..next], want) == RowExponents(rows[..start], want)
    {
      RowExponentsStep(rows, want, next);
      next := next + 1;
    }
  }

  lemma FoundRow(rows: seq<OutputRow>, next: nat, want: bool)
    requires next < |rows| && rows[next].present == want
    ensures var (before, all) := (RowExponents(rows[..next], want), RowExponents(rows, want));
      |before| < |all| && all[|before|] == rows[next].exponent
        && RowExponents(rows[..next + 1], want) == before + [rows[next].exponent]
  {
    RowExponentsStep(rows, want, next);
    RowExponentsGrow(rows, want, next + 1);
  }

  /** The recovery exponents of the equations: first those that solve for missing data, then those to make. */
  function Equations(rows: seq<OutputRow>, d: nat): seq<nat>
    requires d <= |RowExponents(rows, true)|
  {
    RowExponents(rows, true)[..d] + RowExponents(rows, false)
  }

  /** The next usable base value, unless its logarithm is out of range. */
  method NextBase(t: Tables, logbase: nat, ghost index: nat) returns (fits: bool, base: Elem, next: nat)
    requires t.Valid() && logbase == SearchStart(index)
    ensures fits <==> index < 32768
    ensures fits ==> base == Base(index) && next == SearchStart(index + 1)
  {
    hide XPow, NextUsable, BaseLog, Tables.Valid;
    next := NextBaseLog(logbase);
    BaseLogIsNext(index);
    BaseLogBound(index);
    fits := next < LIMIT;
    base := 0;
    if fits {
      base := t.Alog(next);
    }
    next := next + 1;
  }

  lemma StartOfSearch()
    ensures SearchStart(0) == 0
  {}

  class ReedSolomon {
    var inputCount: nat
    var dataPresent: nat
    var dataMissing: nat
    var dataPresentIndex: seq<nat>
    var dataMissingIndex: seq<nat>
    var database: Vector
    var outputCount: nat
    var parPresent: nat
    var parMissing: nat
    var outputRows: seq<OutputRow>
    var leftMatrix: Matrix

    ghost predicate Valid()
      reads this
    {
      && inputCount == |database| == dataPresent + dataMissing
      && dataPresent == |dataPresentIndex| && dataMissing == |dataMissingIndex|
      && (forall c :: 0 <= c < |dataPresentIndex| ==> dataPresentIndex[c] < |database|)
      && (forall c :: 0 <= c < |dataMissingIndex| ==> dataMissingIndex[c] < |database|)
      && Enumerates(dataMissingIndex + dataPresentIndex, |database|)
      && StandardBases(database)
      && OutputsValid()
    }

    ghost predicate OutputsValid()
      reads this`outputRows, this`outputCount, this`parPresent, this`parMissing
    {
      && outputCount == |outputRows|
      && parPresent == |RowExponents(outputRows, true)| && parMissing == |RowExponents(outputRows, false)|
      && (forall i :: 0 <= i < |outputRows| ==> outputRows[i].exponent < COUNT)
    }

    constructor ()
      ensures Valid() && outputRows == [] && inputCount == 0
    {
      inputCount, dataPresent, dataMissing := 0, 0, 0;
      dataPresentIndex, dataMissingIndex, database := [], [], [];
      outputCount, parPresent, parMissing := 0, 0, 0;
      outputRows, leftMatrix := [], [];
    }

    /** The status of the first `n` inputs is recorded. */
    ghost predicate Recorded(status: seq<bool>, n: nat)
      reads this`dataPresent, this`dataMissing, this`dataPresentIndex, this`dataMissingIndex
      requires n <= |status|
    {
      && dataPresent == |dataPresentIndex| && dataMissing == |dataMissingIndex| && dataPresent + dataMissing == n
      && dataPresentIndex == Positions(status, true, n) && dataMissingIndex == Positions(status, false, n)
    }

    method RecordStatus(status: seq<bool>, index: nat)
      requires index < |status| && Recorded(status, index)
      modifies this`dataPresent, this`dataMissing, this`dataPresentIndex, this`dataMissingIndex
      ensures Recorded(status, index + 1)
    {
      if status[index] {
        dataPresentIndex := dataPresentIndex + [index];
        dataPresent := dataPresent + 1;
      } else {
        dataMissingIndex := dataMissingIndex + [index];
        dataMissing := dataMissing + 1;
      }
    }

    /** Records the input status. More than 32768 inputs are refused, and no fewer. */
    method SetInput(t: Tables, status: seq<bool>) returns (r: RsOutcome)
      requires t.Valid() && OutputsValid()
      modifies this`inputCount, this`dataPresent, this`dataMissing, this`dataPresentIndex, this`dataMissingIndex,
        this`database
      ensures r == if |status| <= 32768 then Computed else TooManyInputBlocks
      ensures r == Computed ==> Valid() && inputCount == |status|
      ensures r == Computed ==> dataPresentIndex == Positions(status, true, |status|)
      ensures r == Computed ==> dataMissingIndex == Positions(status, false, |status|)
    {
      hide SearchStart, Base, Tables.Valid, OutputsValid, StandardBases, Recorded, Valid;
      StartOfSearch();
      NoBases();
      inputCount := |status|;
      dataPresentIndex, dataMissingIndex, database := [], [], [];
      dataPresent, dataMissing := 0, 0;
      NothingRecorded(status);
      var logbase := 0;
      for index := 0 to |status|
        invariant inputCount == |status|
        invariant |database| == index <= 32768 && logbase == SearchStart(index) && StandardBases(database)
        invariant Recorded(status, index)
      {
        RecordStatus(status, index);
        var fits, base, next := NextBase(t, logbase, index);
        if !fits {
          return TooManyInputBlocks;
        }
        AppendBase(database, base);
        database := database + [base];
        logbase := next;
      }
      InputsMakeValid(status);
      r := Computed;
    }

    lemma NothingRecorded(status: seq<bool>)
      requires dataPresentIndex == [] && dataMissingIndex == [] && dataPresent == dataMissing == 0
      ensures Recorded(status, 0)
    {}

    /** Inputs that are all recorded, with their bases, make up a valid state. */
    lemma InputsMakeValid(status: seq<bool>)
      requires Recorded(status, |status|) && inputCount == |database| == |status|
      requires StandardBases(database) && OutputsValid()
      ensures Valid()
      ensures dataPresentIndex == Positions(status, true, |status|)
      ensures dataMissingIndex == Positions(status, false, |status|)
    {
      hide Enumerates, StandardBases, OutputsValid;
      PositionsPartition(status, |status|);
    }

    /** Records a recovery block as present or to be made. */
    method SetOutput(present: bool, exponent: nat)
      requires Valid() && exponent < COUNT
      modifies this`outputRows, this`outputCount, this`parPresent, this`parMissing
      ensures Valid() && outputRows == old(outputRows) + [OutputRow(present, exponent)]
    {
      outputRows := outputRows + [OutputRow(present, exponent)];
      assert outputRows[..|outputRows| - 1] == old(outputRows);
      outputCount := outputCount + 1;
      if present {
        parPresent := parPresent + 1;
      } else {
        parMissing := parMissing + 1;
      }
    }

    /** The exponents in use. */
    ghost function Exponents(): seq<nat>
      reads this
      requires Valid() && dataMissing <= parPresent
    {
      Equations(outputRows, dataMissing)
    }

    /** Builds both halves of the system, row by row. */
    method BuildMatrix(t: Tables) returns (built: bool, left: Matrix, right: Matrix)
      requires t.Valid() && Valid()
      ensures built <==> dataMissing <= parPresent
      ensures built ==> IsLeft(left, database, dataPresentIndex, dataMissing, Exponents(), |Exponents()|)
      ensures built ==> IsRight(right, database, dataMissingIndex, parMissing, Exponents(), |Exponents()|)
    {
      hide Enumerates, StandardBases, RowExponents, IsLeft, IsRight;
      left, right := [], [];
      var iter := 0;
      NoRows(outputRows, true);
      NoRows(outputRows, false);
      ghost var (have, make) := (RowExponents(outputRows, true), RowExponents(outputRows, false));
      NoEquations(database, dataPresentIndex, dataMissing, have);
      NoEquations(database, dataMissingIndex, parMissing, have);
      for row := 0 to dataMissing
        invariant iter <= |outputRows| && |RowExponents(outputRows[..iter], true)| == row <= |have|
        invariant IsLeft(left, database, dataPresentIndex, dataMissing, have, row)
        invariant IsRight(right, database, dataMissingIndex, parMissing, have, row)
      {
        iter := NextRow(outputRows, iter, true);
        AllRows(outputRows, iter);
        if iter >= |outputRows| {
          return false, left, right;
        }
        FoundRow(outputRows, iter, true);
        left, right := AppendEquation(t, left, right, outputRows[iter].exponent, row, have);
        iter := iter + 1;
      }
      ghost var e := Equations(outputRows, dataMissing);
      LeftOfEquations(left, database, dataPresentIndex, dataMissing, have, make);
      RightOfEquations(right, database, dataMissingIndex, have, make);
      iter := 0;
      for row := 0 to parMissing
        invariant iter <= |outputRows| && |RowExponents(outputRows[..iter], false)| == row
        invariant IsLeft(left, database, dataPresentIndex, dataMissing, e, dataMissing + row)
        invariant IsRight(right, database, dataMissingIndex, parMissing, e, dataMissing + row)
      {
        iter := NextRow(outputRows, iter, false);
        AllRows(outputRows, iter);
        if iter >= |outputRows| {
          assert false;
        }
        FoundRow(outputRows, iter, false);
        left, right := AppendEquation(t, left, right, outputRows[iter].exponent, dataMissing + row, e);
        iter := iter + 1;
      }
      built := true;
    }

    /** Appends the rows of one equation to both halves. */
    method AppendEquation(t: Tables, left: Matrix, right: Matrix, exponent: nat, r: nat, ghost e: seq<nat>)
      returns (left': Matrix, right': Matrix)
      requires t.Valid() && Valid() && exponent < COUNT && r < |e| && e[r] == exponent
      requires IsLeft(left, database, dataPresentIndex, dataMissing, e, r)
      requires IsRight(right, database, dataMissingIndex, parMissing, e, r)
      ensures IsLeft(left', database, dataPresentIndex, dataMissing, e, r + 1)
      ensures IsRight(right', database, dataMissingIndex, parMissing, e, r + 1)
    {
      hide Coefficient, Enumerates, StandardBases, RowExponents, CoefficientRow, Unit;
      var leftRow := MakeRow(t, database, dataPresentIndex, exponent);
      var rightRow := MakeRow(t, database, dataMissingIndex, exponent);
      left' := left + [leftRow + Unit(dataMissing, r)];
      right' := right
        + [rightRow + if r < dataMissing then Unit(parMissing, parMissing) else Unit(parMissing, r - dataMissing)];
    }

    /**
     * Computes the matrix. With missing data it succeeds exactly when all leading blocks of the right half are
     * nonsingular, and the matrix then maps every input to the one output that balances the equations.
     */
    method Compute(t: Tables) returns (r: RsOutcome, ghost right: Matrix, ghost left: Matrix)
      requires t.Valid() && Valid()
      modifies this`leftMatrix
      ensures r == NotEnoughRecoveryBlocks <==> dataMissing > parPresent
      ensures r == NoOutputBlocks <==> dataMissing == 0 && parMissing == 0
      ensures r in {NotEnoughRecoveryBlocks, NoOutputBlocks, ComputationError, Computed}
      ensures 0 < dataMissing <= parPresent ==> SystemMatrices(right, left)
      ensures 0 < dataMissing <= parPresent ==> (r == Computed <==> LeadsNonsingular(right, dataMissing))
      ensures 0 < dataMissing <= parPresent && r == Computed ==> Maps(right, left)
      ensures r == Computed && dataMissing == 0 ==>
        IsLeft(leftMatrix, database, dataPresentIndex, dataMissing, Exponents(), |Exponents()|)
    {
      hide IsLeft, IsRight, LeadsNonsingular, Enumerates, StandardBases, Coefficient, Progress, SameKernel, Balanced,
        Solves;
      right, left := [], [];
      var outCount := dataMissing + parMissing;
      if dataMissing > parPresent {
        return NotEnoughRecoveryBlocks, right, left;
      } else if outCount == 0 {
        return NoOutputBlocks, right, left;
      }
      var built, leftRows, rightRows := BuildMatrix(t);
      if !built {
        assert false;
      }
      leftMatrix := leftRows;
      if dataMissing > 0 {
        right, left := rightRows, leftRows;
        MatrixShapes(database, dataPresentIndex, dataMissingIndex, parMissing, Exponents(), leftRows, rightRows);
        var ok, left', right' := GaussEliminate(t, leftRows, rightRows, dataPresent + dataMissing, dataMissing);
        leftMatrix := left';
        if !ok {
          return ComputationError, right, left;
        }
        EliminationMaps(rightRows, leftRows, right', left', inputCount);
      }
      r := Computed;
    }

    /** The two halves of the system before elimination. */
    ghost predicate SystemMatrices(right: Matrix, left: Matrix)
      reads this
    {
      && Valid() && dataMissing <= parPresent
      && IsLeft(left, database, dataPresentIndex, dataMissing, Exponents(), |Exponents()|)
      && IsRight(right, database, dataMissingIndex, parMissing, Exponents(), |Exponents()|)
      && |right| == |left| == dataMissing + parMissing
      && Rectangular(right, |right|) && Rectangular(left, inputCount)
    }

    /** The computed matrix solves right * out == left * input for every input. */
    ghost predicate Maps(right: Matrix, left: Matrix)
      reads this
    {
      && |right| == |left| == |leftMatrix| && Rectangular(right, |right|)
      && Rectangular(left, inputCount) && Rectangular(leftMatrix, inputCount)
      && (forall out: Vector, input: Vector | |out| == |right| && |input| == inputCount ::
            Balanced(right, left, out, input) <==> Solves(leftMatrix, input, out))
    }
  }

  lemma MatrixShapes(database: Vector, kept: seq<nat>, lost: seq<nat>, p: nat, e: seq<nat>, left: Matrix, right: Matrix)
    requires IsLeft(left, database, kept, |lost|, e, |e|) && IsRight(right, database, lost, p, e, |e|)
    requires |e| == |lost| + p
    ensures |left| == |right| == |e| && Rectangular(left, |kept| + |lost|) && Rectangular(right, |right|)
    ensures Progress(right, 0, |lost|)
  {
    hide Coefficient;
  }

  lemma EliminationMaps(right: Matrix, left: Matrix, right': Matrix, left': Matrix, w: nat)
    requires |right| == |left| == |right'| == |left'|
    requires Rectangular(right, |right|) && Rectangular(right', |right|) && Rectangular(left, w)
      && Rectangular(left', w)
    requires SameKernel(Beside(right, left), Beside(right', left'), |right| + w) && Progress(right', |right|, |right|)
    ensures forall out: Vector, input: Vector | |out| == |right| && |input| == w ::
      Balanced(right, left, out, input) <==> Solves(left', input, out)
  {
    hide SameKernel, Progress, Balanced, Solves;
    forall out: Vector, input: Vector | |out| == |right| && |input| == w
      ensures Balanced(right, left, out, input) <==> Solves(left', input, out)
    {
      EliminatedSolves(right, left, right', left', out, input);
    }
  }

  lemma AllRows(rows: seq<OutputRow>, k: nat)
    requires k <= |rows|
    ensures k == |rows| ==> rows[..k] == rows
  {}

  lemma NoRows(rows: seq<OutputRow>, want: bool)
    ensures RowExponents(rows[..0], want) == []
  {}

  lemma NoBases()
    ensures StandardBases([])
  {}

  lemma AppendBase(bases: Vector, base: Elem)
    requires StandardBases(bases) && |bases| < 32768 && base == Base(|bases|)
    ensures StandardBases(bases + [base])
  {
    hide Base;
  }

  lemma NoEquations(database: Vector, index: seq<nat>, d: nat, e: seq<nat>)
    requires forall c :: 0 <= c < |index| ==> index[c] < |database|
    ensures IsLeft([], database, index, d, e, 0) && IsRight([], database, index, d, e, 0)
  {}

  lemma LeftOfEquations(left: Matrix, database: Vector, kept: seq<nat>, d: nat, have: seq<nat>, make: seq<nat>)
    requires d <= |have| && IsLeft(left, database, kept, d, have, d)
    ensures IsLeft(left, database, kept, d, have[..d] + make, d)
  {
    hide LeftRow;
  }

  lemma RightOfEquations(right: Matrix, database: Vector, lost: seq<nat>, have: seq<nat>, make: seq<nat>)
    requires |lost| <= |have| && IsRight(right, database, lost, |make|, have, |lost|)
    ensures IsRight(right, database, lost, |make|, have[..|lost|] + make, |lost|)
  {
    hide RightRow;
  }

  // ----- what the computed matrix recovers

  /** The recovery word of an exponent. */
  function RecoveryWord(database: Vector, x: Vector, exponent: nat): Elem
    requires |x| == |database|
  {
    Dot(Coefficients(database, exponent), x, |x|)
  }

  function RecoveryWords(database: Vector, x: Vector, exponents: seq<nat>): (r: Vector)
    requires |x| == |database|
    ensures |r| == |exponents| && forall i :: 0 <= i < |r| ==> r[i] == RecoveryWord(database, x, exponents[i])
  {
    seq(|exponents|, i requires 0 <= i < |exponents| => RecoveryWord(database, x, exponents[i]))
  }

  /** A recovery word is the part of the missing data plus the part of the present data. */
  lemma RecoveryWordSplits(database: Vector, lost: seq<nat>, kept: seq<nat>, x: Vector, e: nat)
    requires |x| == |database| && Enumerates(lost + kept, |database|)
    requires forall c :: 0 <= c < |lost| ==> lost[c] < |database|
    requires forall c :: 0 <= c < |kept| ==> kept[c] < |database|
    ensures RecoveryWord(database, x, e) ==
      Add(Dot(CoefficientRow(database, lost, e), Gather(x, lost), |lost|),
          Dot(CoefficientRow(database, kept, e), Gather(x, kept), |kept|))
  {
    hide Add, Mul, Dot, Coefficient, SumBelow, PrefixSum, Products;
    var u := Coefficients(database, e);
    DotIsPrefixSum(u, x, |x|);
    SumInAnyOrder(Products(u, x), lost + kept, |x|);
    SumBelowAppend(Products(u, x), lost, kept, |x|);
    assert lost[..|lost|] == lost && kept[..|kept|] == kept;
    DotOfSelection(u, x, lost, CoefficientRow(database, lost, e), Gather(x, lost), |lost|);
    DotOfSelection(u, x, kept, CoefficientRow(database, kept, e), Gather(x, kept), |kept|);
  }

  /** A row that ends in a unit vector picks one entry of the tail. */
  lemma DotWithTail(row: Vector, m: nat, k: nat, v: Vector, tail: Vector)
    requires |row| == |v| && |tail| == m
    ensures Dot(row + Unit(m, k), v + tail, |v| + m) == Add(Dot(row, v, |v|), if k < m then tail[k] else 0)
  {
    hide Add, Mul, Dot;
    var (u, w) := (row + Unit(m, k), v + tail);
    DotSplit(u, w, |v|, m);
    assert u[|v|..] == Unit(m, k) && w[|v|..] == tail;
    DotSame(u, row, w, v, |v|);
    if k < m {
      DotUnitLeft(Unit(m, k), tail, m, k);
    } else {
      DotZeroLeft(Unit(m, k), tail, m);
    }
  }

  /** Missing data followed by the recovery words to make. */
  function Outputs(database: Vector, x: Vector, lost: seq<nat>, exponents: seq<nat>): Vector
    requires |x| == |database| && |lost| <= |exponents| && forall c :: 0 <= c < |lost| ==> lost[c] < |x|
  {
    Gather(x, lost) + RecoveryWords(database, x, exponents[|lost|..])
  }

  /** Present data followed by the recovery words in use. */
  function Inputs(database: Vector, x: Vector, kept: seq<nat>, d: nat, exponents: seq<nat>): Vector
    requires |x| == |database| && d <= |exponents| && forall c :: 0 <= c < |kept| ==> kept[c] < |x|
  {
    Gather(x, kept) + RecoveryWords(database, x, exponents[..d])
  }

  lemma LeftSide(database: Vector, kept: seq<nat>, x: Vector, d: nat, e: seq<nat>, r: nat)
    requires |x| == |database| && d <= |e| && r < |e| && forall c :: 0 <= c < |kept| ==> kept[c] < |database|
    ensures Dot(LeftRow(database, kept, d, e[r], r), Inputs(database, x, kept, d, e), |kept| + d)
      == Add(Dot(CoefficientRow(database, kept, e[r]), Gather(x, kept), |kept|),
             if r < d then RecoveryWord(database, x, e[r]) else 0)
  {
    hide Add, Dot, Coefficient, RecoveryWord;
    DotWithTail(CoefficientRow(database, kept, e[r]), d, r, Gather(x, kept), RecoveryWords(database, x, e[..d]));
  }

  lemma RightSide(database: Vector, lost: seq<nat>, x: Vector, e: seq<nat>, r: nat)
    requires |x| == |database| && |lost| <= |e| && r < |e| && forall c :: 0 <= c < |lost| ==> lost[c] < |database|
    ensures Dot(RightRow(database, lost, |e| - |lost|, e[r], r), Outputs(database, x, lost, e), |e|)
      == Add(Dot(CoefficientRow(database, lost, e[r]), Gather(x, lost), |lost|),
             if r < |lost| then 0 else RecoveryWord(database, x, e[r]))
  {
    hide Add, Dot, Coefficient, RecoveryWord;
    var (d, p) := (|lost|, |e| - |lost|);
    DotWithTail(CoefficientRow(database, lost, e[r]), p, if r < d then p else r - d, Gather(x, lost),
                RecoveryWords(database, x, e[d..]));
  }

  lemma EquationBalances(database: Vector, lost: seq<nat>, kept: seq<nat>, x: Vector, e: seq<nat>, r: nat)
    requires |x| == |database| && Enumerates(lost + kept, |database|) && |lost| <= |e| && r < |e|
    requires forall c :: 0 <= c < |lost| ==> lost[c] < |database|
    requires forall c :: 0 <= c < |kept| ==> kept[c] < |database|
    ensures Dot(RightRow(database, lost, |e| - |lost|, e[r], r), Outputs(database, x, lost, e), |e|)
      == Dot(LeftRow(database, kept, |lost|, e[r], r), Inputs(database, x, kept, |lost|, e), |kept| + |lost|)
  {
    hide Add, Dot, Enumerates, RecoveryWord, CoefficientRow, LeftRow, RightRow, Outputs, Inputs, Gather, RecoveryWords;
    LeftSide(database, kept, x, |lost|, e, r);
    RightSide(database, lost, x, e, r);
    RecoveryWordSplits(database, lost, kept, x, e[r]);
    SidesBalance(Dot(CoefficientRow(database, lost, e[r]), Gather(x, lost), |lost|),
                 Dot(CoefficientRow(database, kept, e[r]), Gather(x, kept), |kept|));
  }

  lemma SidesBalance(a: Elem, b: Elem)
    ensures Add(a, 0) == Add(b, Add(a, b)) && Add(a, Add(a, b)) == Add(b, 0)
  {
    hide Add;
    AddComm(a, b);
    AddCancel(a, b);
    AddCancel(b, a);
    AddUnit(a);
    AddUnit(b);
    AddComm(b, Add(a, b));
    AddComm(a, Add(a, b));
  }

  /**
   * Whenever the computed matrix maps as promised, feeding it present data and recovery words of any data `x` gives
   * exactly the missing words of `x` and the recovery words that were to be made.
   */
  lemma ComputedMatrixRecovers(database: Vector, lost: seq<nat>, kept: seq<nat>, e: seq<nat>, right: Matrix,
                               left: Matrix, computed: Matrix, x: Vector)
    requires |x| == |database| && Enumerates(lost + kept, |database|) && |lost| <= |e|
    requires IsLeft(left, database, kept, |lost|, e, |e|) && IsRight(right, database, lost, |e| - |lost|, e, |e|)
    requires |computed| == |e| && Rectangular(computed, |kept| + |lost|)
    requires Rectangular(right, |e|) && Rectangular(left, |kept| + |lost|)
    requires forall out: Vector, input: Vector | |out| == |e| && |input| == |kept| + |lost| ::
      Balanced(right, left, out, input) <==> Solves(computed, input, out)
    ensures Solves(computed, Inputs(database, x, kept, |lost|, e), Outputs(database, x, lost, e))
  {
    hide Dot, Coefficient, Enumerates, LeftRow, RightRow;
    var (out, input) := (Outputs(database, x, lost, e), Inputs(database, x, kept, |lost|, e));
    forall r | 0 <= r < |e|
      ensures Dot(right[r], out, |out|) == Dot(left[r], input, |input|)
    {
      EquationBalances(database, lost, kept, x, e, r);
    }
    assert Balanced(right, left, out, input);
  }

  /** A leading block is the coefficient matrix of the first missing inputs and the first exponents. */
  lemma LeadIsSystem(database: Vector, lost: seq<nat>, p: nat, e: seq<nat>, right: Matrix, s: nat, system: System)
    requires IsRight(right, database, lost, p, e, |e|) && |e| == |lost| + p && Rectangular(right, |right|)
      && s <= |lost|
    requires forall r: nat :: r < s ==> e[r] < 65536
    requires system == System(database, seq(s, r requires 0 <= r < s => Recovery(e[r], [])), lost[..s], [], [], 0)
    ensures system.Valid() && system.Matrix() == Lead(right, s)
  {
    hide Coefficient;
    forall r | 0 <= r < s
      ensures system.Matrix()[r] == Lead(right, s)[r]
    {
      assert FieldExponent(system.recs[r]) == e[r];
    }
  }

  /** Recovery exponents in progression, with a step prime to 65535, never meet a zero pivot. */
  lemma ProgressionComputes(database: Vector, lost: seq<nat>, p: nat, e: seq<nat>, right: Matrix, first: nat, step: nat)
    requires StandardBases(database) && Usable(step) && IsRight(right, database, lost, p, e, |e|)
    requires |e| == |lost| + p && Rectangular(right, |right|)
    requires forall a, b :: 0 <= a < b < |lost| ==> lost[a] != lost[b]
    requires forall r: nat :: r < |lost| ==> e[r] == Term(first, step, r) < 65536
    ensures LeadsNonsingular(right, |lost|)
  {
    hide Coefficient, Nonsingular, Usable, CoefficientMatrix, RightRow, Term;
    forall s | 1 <= s <= |lost|
      ensures Nonsingular(Lead(right, s))
    {
      var recs := seq(s, r requires 0 <= r < s => Recovery(e[r], []));
      var system := System(database, recs, lost[..s], [], [], 0);
      forall r: nat | r < s
        ensures HasExponent(recs, s, Term(first, step, r))
      {
        assert FieldExponent(recs[r]) == Term(first, step, r);
      }
      LeadIsSystem(database, lost, p, e, right, s, system);
      ProgressionRecoverable(system, first, step);
    }
  }
}
