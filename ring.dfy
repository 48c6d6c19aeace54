/**
 * The ring over which circulating states rotate in the exchange operator
 * (ExchangeOperator::InitPermutation and the rotation loop of
 * ExchangeOperator::compute_exchange_at_gamma_), and the chessboard rule that
 * decides which orientation of a pair of states is evaluated.
 *
 * Columns of the process grid are numbered 0 .. npcol-1. At every rotation step
 * each column passes its circulating block to its right-hand neighbour and
 * receives the block of its left-hand neighbour.
 */
module Ring {
  import Arith

  /** The column a column sends its circulating block to. */
  function SendTo(mycol: nat, npcol: nat): (c: nat)
    requires mycol < npcol
    ensures c < npcol
  {
    if mycol < npcol - 1 then mycol + 1 else 0
  }

  /** The column a column receives a circulating block from. */
  function RecvFrom(mycol: nat, npcol: nat): (c: nat)
    requires mycol < npcol
    ensures c < npcol
  {
    if mycol > 0 then mycol - 1 else npcol - 1
  }

  /** The neighbours are mycol + 1 and mycol - 1 modulo npcol. */
  lemma NeighboursAreModular(mycol: nat, npcol: nat)
    requires mycol < npcol
    ensures SendTo(mycol, npcol) == (mycol + 1) % npcol
    ensures RecvFrom(mycol, npcol) == (mycol + npcol - 1) % npcol
  {
    if mycol < npcol - 1 {
      Arith.ModInBlock(mycol + 1, npcol, 0);
    } else {
      Arith.ModInBlock(mycol + 1, npcol, 1);
    }
    if mycol > 0 {
      Arith.ModInBlock(mycol + npcol - 1, npcol, 1);
    } else {
      Arith.ModInBlock(mycol + npcol - 1, npcol, 0);
    }
  }

  /** Sending and receiving are inverse: the block c sends is received from c. */
  lemma NeighboursInverse(c: nat, npcol: nat)
    requires c < npcol
    ensures RecvFrom(SendTo(c, npcol), npcol) == c
    ensures SendTo(RecvFrom(c, npcol), npcol) == c
  {
  }

  /** The column the circulating block held at rotation step `step` comes from. */
  function OriginColumn(mycol: nat, step: nat, npcol: nat): (o: nat)
    requires mycol < npcol && step < npcol
    ensures o < npcol
  {
    if mycol - step < 0 then mycol - step + npcol else mycol - step
  }

  /** The origin is mycol - step modulo npcol. */
  lemma OriginIsModular(mycol: nat, step: nat, npcol: nat)
    requires mycol < npcol && step < npcol
    ensures OriginColumn(mycol, step, npcol) == (mycol - step) % npcol
  {
    if mycol - step < 0 {
      Arith.ModInBlock(mycol - step, npcol, -1);
    } else {
      Arith.ModInBlock(mycol - step, npcol, 0);
    }
  }

  /** Only at step 0 does a column hold its own block. */
  lemma OwnBlockOnlyAtStepZero(mycol: nat, step: nat, npcol: nat)
    requires mycol < npcol && step < npcol
    ensures OriginColumn(mycol, step, npcol) == mycol <==> step == 0
  {
  }

  /** The unique step at which the block of column `origin` is held by column `mycol`. */
  function StepOf(origin: nat, mycol: nat, npcol: nat): (s: nat)
    requires origin < npcol && mycol < npcol
    ensures s < npcol
    ensures OriginColumn(mycol, s, npcol) == origin
    ensures forall t :: 0 <= t < npcol && OriginColumn(mycol, t, npcol) == origin ==> t == s
  {
    if mycol >= origin then mycol - origin else mycol - origin + npcol
  }

  /** Over the npcol rotation steps every column holds every column's block
      exactly once. */
  lemma VisitsEachColumnOnce(mycol: nat, origin: nat, npcol: nat)
    requires mycol < npcol && origin < npcol
    ensures |set s | 0 <= s < npcol && OriginColumn(mycol, s, npcol) == origin| == 1
  {
    var w := StepOf(origin, mycol, npcol);
    var steps := set s | 0 <= s < npcol && OriginColumn(mycol, s, npcol) == origin;
    assert steps == {w};
  }

  /** One rotation of the blocks held by all columns: column c now holds what
      its left-hand neighbour held. */
  function Rotate<T>(held: seq<T>): (r: seq<T>)
    ensures |r| == |held|
  {
    seq(|held|, c requires 0 <= c < |held| => held[RecvFrom(c, |held|)])
  }

  /** The blocks held after `steps` rotations. */
  function RotateN<T>(held: seq<T>, steps: nat): (r: seq<T>)
    ensures |r| == |held|
  {
    if steps == 0 then held else Rotate(RotateN(held, steps - 1))
  }

  /** After `steps` (at most npcol) rotations column c holds the block of
      column c - steps, wrapped around once. */
  lemma {:induction false} RotateNHolds<T>(held: seq<T>, steps: nat, c: nat)
    requires c < |held| && steps <= |held|
    ensures RotateN(held, steps)[c] == held[if c >= steps then c - steps else c - steps + |held|]
  {
    if steps > 0 {
      RotateNHolds(held, steps - 1, RecvFrom(c, |held|));
    }
  }

  /** The block held at step s is the block of OriginColumn(c, s). */
  lemma RotationMatchesOrigin<T>(held: seq<T>, steps: nat, c: nat)
    requires c < |held| && steps < |held|
    ensures RotateN(held, steps)[c] == held[OriginColumn(c, steps, |held|)]
  {
    RotateNHolds(held, steps, c);
  }

  /** After a full cycle of npcol rotations every column holds its own block
      again, so the number of circulating states returns to the local count. */
  lemma FullCycle<T>(held: seq<T>)
    ensures RotateN(held, |held|) == held
  {
    forall c | 0 <= c < |held|
      ensures RotateN(held, |held|)[c] == held[c]
    {
      RotateNHolds(held, |held|, c);
    }
  }

  /**
   * Chessboard rule: a pair of global state indices (a, b) with a circulating and
   * b fixed is evaluated when the indices have the same parity and a >= b, or
   * different parities and a < b.
   */
  predicate Keep(a: nat, b: nat)
  {
    if a % 2 == b % 2 then a >= b else a < b
  }

  /** Exactly one orientation of a pair of distinct states is kept; a state
      paired with itself is kept. */
  lemma ExactlyOneOrientation(a: nat, b: nat)
    ensures a != b ==> (Keep(a, b) <==> !Keep(b, a))
    ensures Keep(a, a)
  {
  }

  /** Column `mycol` at step `step` evaluates the pair (a circulating, b fixed),
      where column(g) is the column that owns global state g. */
  predicate Evaluates(column: nat -> nat, npcol: nat, mycol: nat, step: nat, a: nat, b: nat)
    requires mycol < npcol && step < npcol
  {
    column(a) == OriginColumn(mycol, step, npcol) && column(b) == mycol && Keep(a, b)
  }

  /** Every unordered pair of distinct states is evaluated by exactly one
      (column, step), in exactly one orientation. */
  lemma {:induction false} PairEvaluatedOnce(column: nat -> nat, npcol: nat, a: nat, b: nat)
    requires column(a) < npcol && column(b) < npcol
    requires a != b
    ensures |set c, s | 0 <= c < npcol && 0 <= s < npcol &&
               (Evaluates(column, npcol, c, s, a, b) || Evaluates(column, npcol, c, s, b, a)) :: (c, s)| == 1
  {
    ExactlyOneOrientation(a, b);
    var found := set c, s | 0 <= c < npcol && 0 <= s < npcol &&
               (Evaluates(column, npcol, c, s, a, b) || Evaluates(column, npcol, c, s, b, a)) :: (c, s);
    var one := if Keep(a, b) then (column(b), StepOf(column(a), column(b), npcol))
               else (column(a), StepOf(column(b), column(a), npcol));
    forall cs | cs in found
      ensures cs == one
    {
    }
    assert one in found;
    assert found == {one};
  }

  /** A state paired with itself is evaluated once, by its own column at step 0. */
  lemma SelfPairAtStepZero(column: nat -> nat, npcol: nat, a: nat)
    requires column(a) < npcol
    ensures (set c, s | 0 <= c < npcol && 0 <= s < npcol &&
               Evaluates(column, npcol, c, s, a, a) :: (c, s)) == {(column(a), 0)}
  {
    ExactlyOneOrientation(a, a);
    var found := set c, s | 0 <= c < npcol && 0 <= s < npcol &&
               Evaluates(column, npcol, c, s, a, a) :: (c, s);
    forall cs | cs in found
      ensures cs == (column(a), 0)
    {
    }
    assert Evaluates(column, npcol, column(a), 0, a, a);
    assert (column(a), 0) in found;
  }
}
