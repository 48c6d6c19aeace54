/**
 * The pending-transfer protocol of the exchange operator's ring rotation
 * (ExchangeOperator::InitPermutation, Start*Permutation, Complete*,
 * SetNextPermutationStateNumber and the bookkeeping of the rotation loop).
 *
 * The message-passing layer is not modelled: a posted send or receive is
 * recorded in the ghost maps `pendingSend` / `pendingRecv` (channel to number
 * of values in flight) and a completed one is removed. The integer flags
 * wait_send_* / wait_recv_* of the source must always agree with these maps.
 */
module Permutation {
  import Ring

  /** The three kinds of data that circulate. */
  datatype Channel = States | Forces | Occupations

  /** A flag is 0 or 1 and is 1 exactly when a transfer is pending. */
  predicate FlagMatches(flag: int, pending: bool)
  {
    flag == (if pending then 1 else 0)
  }

  /** The transfers after posting `count` values on `ch`: nothing is posted for
      an empty block. */
  function Post(m: map<Channel, nat>, ch: Channel, count: int): (r: map<Channel, nat>)
    requires ch !in m
    ensures ch in r <==> count > 0
    ensures ch in r ==> r[ch] == count
    ensures forall c :: c != ch ==> (c in r <==> c in m) && (c in m ==> r[c] == m[c])
  {
    if count > 0 then m[ch := count] else m
  }

  /** The transfers after completing the one on `ch`, if any. */
  function Done(m: map<Channel, nat>, ch: Channel): (r: map<Channel, nat>)
    ensures ch !in r
    ensures forall c :: c != ch ==> (c in r <==> c in m) && (c in m ==> r[c] == m[c])
  {
    m - {ch}
  }

  class ExchangePermutation {
    const mycol: nat
    const npcol: nat
    /** Number of states a block can hold: the size of the buffers. */
    const capacity: nat

    var colSendTo: int
    var colRecvFr: int
    /** Number of circulating states currently held, and of the block being received. */
    var nStatesKpi: int
    var nNextStatesKpi: int

    var waitSendStates: int
    var waitRecvStates: int
    var waitSendForces: int
    var waitRecvForces: int
    var waitSendOccupations: int
    var waitRecvOccupations: int

    /** Occupations of the fixed states, of the circulating states, and the send buffer. */
    const occKj: array<real>
    const occKi: array<real>
    const sendBufOccupation: array<real>

    ghost var pendingSend: map<Channel, nat>
    ghost var pendingRecv: map<Channel, nat>

    ghost predicate Valid()
      reads this`nStatesKpi, this`nNextStatesKpi,
               this`waitSendStates, this`waitRecvStates, this`waitSendForces, this`waitRecvForces,
               this`waitSendOccupations, this`waitRecvOccupations, this`pendingSend, this`pendingRecv
    {
      mycol < npcol &&
      occKi != sendBufOccupation && occKi != occKj && occKj != sendBufOccupation &&
      occKj.Length == capacity && occKi.Length == capacity && sendBufOccupation.Length == capacity &&
      0 <= nStatesKpi <= capacity && 0 <= nNextStatesKpi <= capacity &&
      FlagMatches(waitSendStates, States in pendingSend) &&
      FlagMatches(waitRecvStates, States in pendingRecv) &&
      FlagMatches(waitSendForces, Forces in pendingSend) &&
      FlagMatches(waitRecvForces, Forces in pendingRecv) &&
      FlagMatches(waitSendOccupations, Occupations in pendingSend) &&
      FlagMatches(waitRecvOccupations, Occupations in pendingRecv) &&
      (forall c :: c in pendingRecv ==> pendingRecv[c] <= capacity)
    }

    /** Nothing is in flight. */
    ghost predicate Idle()
      reads this`pendingSend, this`pendingRecv
    {
      pendingSend == map[] && pendingRecv == map[]
    }

    constructor(mycol: nat, npcol: nat, capacity: nat)
      requires mycol < npcol
      ensures Valid() && Idle()
      ensures this.mycol == mycol && this.npcol == npcol && this.capacity == capacity
      ensures nStatesKpi == 0 && nNextStatesKpi == 0
      ensures fresh(occKj) && fresh(occKi) && fresh(sendBufOccupation)
    {
      this.mycol := mycol;
      this.npcol := npcol;
      this.capacity := capacity;
      colSendTo := 0;
      colRecvFr := 0;
      nStatesKpi := 0;
      nNextStatesKpi := 0;
      waitSendStates := 0;
      waitRecvStates := 0;
      waitSendForces := 0;
      waitRecvForces := 0;
      waitSendOccupations := 0;
      waitRecvOccupations := 0;
      occKj := new real[capacity](_ => 0.0);
      occKi := new real[capacity](_ => 0.0);
      sendBufOccupation := new real[capacity](_ => 0.0);
      pendingSend := map[];
      pendingRecv := map[];
    }

    /** Chooses the right-hand neighbour as destination and the left-hand
        neighbour as source. */
    method InitPermutation()
      requires Valid()
      modifies this`colSendTo, this`colRecvFr
      ensures Valid()
      ensures colSendTo == Ring.SendTo(mycol, npcol) && colRecvFr == Ring.RecvFrom(mycol, npcol)
    {
      colSendTo := if mycol < npcol - 1 then mycol + 1 else 0;
      colRecvFr := if mycol > 0 then mycol - 1 else npcol - 1;
    }

    /**
     * Sets the occupations of the nstloc local states (hard-wired to 2.0 in the
     * source, whatever the wave function's occupations are) and makes the local
     * states the first circulating block.
     */
    method LoadLocalStates(nstloc: nat)
      requires Valid() && nstloc <= capacity
      modifies this`nStatesKpi, occKj, occKi
      ensures Valid()
      ensures nStatesKpi == nstloc
      ensures forall i :: 0 <= i < nstloc ==> occKj[i] == 2.0 && occKi[i] == 2.0
      ensures forall i :: nstloc <= i < capacity ==> occKj[i] == old(occKj[i]) && occKi[i] == old(occKi[i])
    {
      var i := 0;
      while i < nstloc
        modifies occKj
        invariant 0 <= i <= nstloc
        invariant forall k :: 0 <= k < i ==> occKj[k] == 2.0
        invariant forall k :: i <= k < capacity ==> occKj[k] == old(occKj[k])
        invariant occKi[..] == old(occKi[..])
      {
        occKj[i] := 2.0;
        i := i + 1;
      }
      nStatesKpi := nstloc;
      i := 0;
      while i < nStatesKpi
        modifies occKi
        invariant 0 <= i <= nStatesKpi
        invariant forall k :: 0 <= k < i ==> occKi[k] == occKj[k]
        invariant forall k :: i <= k < capacity ==> occKi[k] == old(occKi[k])
        invariant forall k :: 0 <= k < nstloc ==> occKj[k] == 2.0
        invariant forall k :: nstloc <= k < capacity ==> occKj[k] == old(occKj[k])
      {
        occKi[i] := occKj[i];
        i := i + 1;
      }
    }

    /** Records the size of the block the left-hand neighbour is about to send
        (a blocking exchange of the two counts). */
    method SetNextPermutationStateNumber(received: nat)
      requires Valid() && received <= capacity
      modifies this`nNextStatesKpi
      ensures Valid()
      ensures nNextStatesKpi == received
    {
      nNextStatesKpi := received;
    }

    /** Posts the send of the current block and the receive of the next one;
        an empty block posts nothing. */
    method StartStatesPermutation()
      requires Valid() && States !in pendingSend && States !in pendingRecv
      modifies this`waitSendStates, this`waitRecvStates, this`pendingSend, this`pendingRecv
      ensures Valid()
      ensures waitSendStates == (if nStatesKpi > 0 then 1 else 0)
      ensures waitRecvStates == (if nNextStatesKpi > 0 then 1 else 0)
      ensures pendingSend == Post(old(pendingSend), States, nStatesKpi)
      ensures pendingRecv == Post(old(pendingRecv), States, nNextStatesKpi)
    {
      if nStatesKpi > 0 {
        waitSendStates := 1;
      } else {
        waitSendStates := 0;
      }
      if nNextStatesKpi > 0 {
        waitRecvStates := 1;
      } else {
        waitRecvStates := 0;
      }
      pendingSend := Post(pendingSend, States, nStatesKpi);
      pendingRecv := Post(pendingRecv, States, nNextStatesKpi);
    }

    method StartForcesPermutation()
      requires Valid() && Forces !in pendingSend && Forces !in pendingRecv
      modifies this`waitSendForces, this`waitRecvForces, this`pendingSend, this`pendingRecv
      ensures Valid()
      ensures waitSendForces == (if nStatesKpi > 0 then 1 else 0)
      ensures waitRecvForces == (if nNextStatesKpi > 0 then 1 else 0)
      ensures pendingSend == Post(old(pendingSend), Forces, nStatesKpi)
      ensures pendingRecv == Post(old(pendingRecv), Forces, nNextStatesKpi)
    {
      if nStatesKpi > 0 {
        waitSendForces := 1;
      } else {
        waitSendForces := 0;
      }
      if nNextStatesKpi > 0 {
        waitRecvForces := 1;
      } else {
        waitRecvForces := 0;
      }
      pendingSend := Post(pendingSend, Forces, nStatesKpi);
      pendingRecv := Post(pendingRecv, Forces, nNextStatesKpi);
    }

    /** Copies the occupations of the current block into the send buffer;
        only its first nStatesKpi entries are written. */
    method FillOccupationBuffer()
      requires Valid()
      modifies sendBufOccupation
      ensures forall i :: 0 <= i < nStatesKpi ==> sendBufOccupation[i] == occKi[i]
      ensures forall i :: nStatesKpi <= i < capacity ==> sendBufOccupation[i] == old(sendBufOccupation[i])
    {
      var i := 0;
      while i < nStatesKpi
        invariant 0 <= i <= nStatesKpi
        invariant forall k :: 0 <= k < i ==> sendBufOccupation[k] == occKi[k]
        invariant forall k :: i <= k < capacity ==> sendBufOccupation[k] == old(sendBufOccupation[k])
      {
        sendBufOccupation[i] := occKi[i];
        i := i + 1;
      }
    }

    /** Copies the occupations of the current block into the send buffer, then
        posts the send and the receive. */
    method StartOccupationsPermutation()
      requires Valid() && Occupations !in pendingSend && Occupations !in pendingRecv
      modifies this`waitSendOccupations, this`waitRecvOccupations, this`pendingSend, this`pendingRecv,
               sendBufOccupation
      ensures Valid()
      ensures forall i :: 0 <= i < nStatesKpi ==> sendBufOccupation[i] == occKi[i]
      ensures forall i :: nStatesKpi <= i < capacity ==> sendBufOccupation[i] == old(sendBufOccupation[i])
      ensures waitSendOccupations == (if nStatesKpi > 0 then 1 else 0)
      ensures waitRecvOccupations == (if nNextStatesKpi > 0 then 1 else 0)
      ensures pendingSend == Post(old(pendingSend), Occupations, nStatesKpi)
      ensures pendingRecv == Post(old(pendingRecv), Occupations, nNextStatesKpi)
    {
      FillOccupationBuffer();
      if nStatesKpi > 0 {
        waitSendOccupations := 1;
      } else {
        waitSendOccupations := 0;
      }
      if nNextStatesKpi > 0 {
        waitRecvOccupations := 1;
      } else {
        waitRecvOccupations := 0;
      }
      pendingSend := Post(pendingSend, Occupations, nStatesKpi);
      pendingRecv := Post(pendingRecv, Occupations, nNextStatesKpi);
    }

    /** Waits for the pending receive of states, except at step 0 (nothing has
        been posted yet in a rotation); a second call is a no-op. */
    method CompleteReceivingStates(step: int)
      requires Valid()
      modifies this`waitRecvStates, this`pendingRecv
      ensures Valid()
      ensures step == 0 ==> waitRecvStates == old(waitRecvStates) && pendingRecv == old(pendingRecv)
      ensures step != 0 ==> waitRecvStates == 0 && pendingRecv == Done(old(pendingRecv), States)
    {
      if step != 0 && waitRecvStates != 0 {
        waitRecvStates := 0;
        pendingRecv := Done(pendingRecv, States);
      }
    }

    method CompleteSendingStates(step: int)
      requires Valid()
      modifies this`waitSendStates, this`pendingSend
      ensures Valid()
      ensures step == 0 ==> waitSendStates == old(waitSendStates) && pendingSend == old(pendingSend)
      ensures step != 0 ==> waitSendStates == 0 && pendingSend == Done(old(pendingSend), States)
    {
      if step != 0 && waitSendStates != 0 {
        waitSendStates := 0;
        pendingSend := Done(pendingSend, States);
      }
    }

    method CompleteReceivingForces(step: int)
      requires Valid()
      modifies this`waitRecvForces, this`pendingRecv
      ensures Valid()
      ensures step == 0 ==> waitRecvForces == old(waitRecvForces) && pendingRecv == old(pendingRecv)
      ensures step != 0 ==> waitRecvForces == 0 && pendingRecv == Done(old(pendingRecv), Forces)
    {
      if step != 0 && waitRecvForces != 0 {
        waitRecvForces := 0;
        pendingRecv := Done(pendingRecv, Forces);
      }
    }

    method CompleteSendingForces(step: int)
      requires Valid()
      modifies this`waitSendForces, this`pendingSend
      ensures Valid()
      ensures step == 0 ==> waitSendForces == old(waitSendForces) && pendingSend == old(pendingSend)
      ensures step != 0 ==> waitSendForces == 0 && pendingSend == Done(old(pendingSend), Forces)
    {
      if step != 0 && waitSendForces != 0 {
        waitSendForces := 0;
        pendingSend := Done(pendingSend, Forces);
      }
    }

    /** Completes the receive of occupations: the values sent by the left-hand
        neighbour land in the first entries of occKi. */
    method CompleteReceivingOccupations(step: int, incoming: seq<real>)
      requires Valid()
      requires step != 0 && Occupations in pendingRecv ==> |incoming| == pendingRecv[Occupations]
      modifies this`waitRecvOccupations, this`pendingRecv, occKi
      ensures Valid()
      ensures step == 0 || Occupations !in old(pendingRecv) ==> occKi[..] == old(occKi[..])
      ensures step != 0 && Occupations in old(pendingRecv) ==>
                occKi[..|incoming|] == incoming && occKi[|incoming|..] == old(occKi[|incoming|..])
      ensures step == 0 ==> waitRecvOccupations == old(waitRecvOccupations) && pendingRecv == old(pendingRecv)
      ensures step != 0 ==> waitRecvOccupations == 0 && pendingRecv == Done(old(pendingRecv), Occupations)
    {
      if step != 0 && waitRecvOccupations != 0 {
        var i := 0;
        while i < |incoming|
          modifies occKi
          invariant 0 <= i <= |incoming|
          invariant forall k :: 0 <= k < i ==> occKi[k] == incoming[k]
          invariant forall k :: i <= k < capacity ==> occKi[k] == old(occKi[k])
        {
          occKi[i] := incoming[i];
          i := i + 1;
        }
        assert occKi[..|incoming|] == incoming;
        waitRecvOccupations := 0;
        pendingRecv := Done(pendingRecv, Occupations);
      }
    }

    method CompleteSendingOccupations(step: int)
      requires Valid()
      modifies this`waitSendOccupations, this`pendingSend
      ensures Valid()
      ensures step == 0 ==> waitSendOccupations == old(waitSendOccupations) && pendingSend == old(pendingSend)
      ensures step != 0 ==> waitSendOccupations == 0 && pendingSend == Done(old(pendingSend), Occupations)
    {
      if step != 0 && waitSendOccupations != 0 {
        waitSendOccupations := 0;
        pendingSend := Done(pendingSend, Occupations);
      }
    }

    /** End of a rotation step: the received block becomes the current one. */
    method EndStep()
      requires Valid()
      modifies this`nStatesKpi
      ensures Valid()
      ensures nStatesKpi == nNextStatesKpi
    {
      nStatesKpi := nNextStatesKpi;
    }

    /** Between two rotation steps: only the transfers posted by the previous
        step are in flight, forces only when derivatives are computed, and every
        pending receive carries the current block size. */
    ghost predicate InRotation(dwf: bool)
      reads this`nStatesKpi, this`nNextStatesKpi,
               this`waitSendStates, this`waitRecvStates, this`waitSendForces, this`waitRecvForces,
               this`waitSendOccupations, this`waitRecvOccupations, this`pendingSend, this`pendingRecv
    {
      Valid() &&
      pendingSend.Keys <= {States, Forces, Occupations} &&
      (!dwf ==> Forces !in pendingSend && Forces !in pendingRecv) &&
      (Occupations in pendingRecv ==> pendingRecv[Occupations] == nStatesKpi)
    }

    /**
     * One rotation step as the rotation loop performs it (communication calls
     * only; the pair evaluation in between does not touch this state).
     * `received` is the size of the block the left-hand neighbour holds at this
     * step and `incoming` the occupations it sent at the previous step. No
     * transfer is posted while the previous one on the same channel is pending.
     */
    method RotationStep(step: nat, dwf: bool, received: nat, incoming: seq<real>)
      requires step == 0 ==> Valid() && Idle()
      requires step != 0 ==> InRotation(dwf)
      requires step != 0 && Occupations in pendingRecv ==> |incoming| == nStatesKpi
      requires received <= capacity
      modifies this`waitSendStates, this`waitRecvStates, this`waitSendForces, this`waitRecvForces,
               this`waitSendOccupations, this`waitRecvOccupations, this`pendingSend, this`pendingRecv,
               this`nStatesKpi, this`nNextStatesKpi, occKi, sendBufOccupation
      ensures InRotation(dwf)
      ensures nStatesKpi == received
    {
      ReceivePhase(step, dwf, incoming);
      SendPhase(step, dwf, received);
    }

    /** First half of a step: the circulating occupations and states of this
        step arrive and the previous send of states completes. */
    method ReceivePhase(step: nat, dwf: bool, incoming: seq<real>)
      requires step == 0 ==> Valid() && Idle()
      requires step != 0 ==> InRotation(dwf)
      requires step != 0 && Occupations in pendingRecv ==> |incoming| == nStatesKpi
      modifies this`waitSendStates, this`waitRecvStates, this`waitRecvOccupations,
               this`pendingSend, this`pendingRecv, occKi
      ensures Valid()
      ensures step == 0 ==> Idle()
      ensures States !in pendingSend && States !in pendingRecv && Occupations !in pendingRecv
      ensures pendingSend.Keys <= {Forces, Occupations}
      ensures !dwf ==> Forces !in pendingSend && Forces !in pendingRecv
    {
      CompleteReceivingOccupations(step, incoming);
      CompleteReceivingStates(step);
      CompleteSendingStates(step);
    }

    /** Second half of a step: the next block size is exchanged, states, forces
        and occupations are posted, and the received block becomes current. */
    method SendPhase(step: nat, dwf: bool, received: nat)
      requires Valid() && received <= capacity
      requires step == 0 ==> Idle()
      requires States !in pendingSend && States !in pendingRecv && Occupations !in pendingRecv
      requires pendingSend.Keys <= {Forces, Occupations}
      requires !dwf ==> Forces !in pendingSend && Forces !in pendingRecv
      modifies this`waitSendStates, this`waitRecvStates, this`waitSendForces, this`waitRecvForces,
               this`waitSendOccupations, this`waitRecvOccupations, this`pendingSend, this`pendingRecv,
               this`nStatesKpi, this`nNextStatesKpi, sendBufOccupation
      ensures InRotation(dwf)
      ensures nStatesKpi == received
    {
      PostStatesAndForces(step, dwf, received);
      PostOccupations(step, dwf);
    }

    method PostStatesAndForces(step: nat, dwf: bool, received: nat)
      requires Valid() && received <= capacity
      requires step == 0 ==> Idle()
      requires States !in pendingSend && States !in pendingRecv && Occupations !in pendingRecv
      requires pendingSend.Keys <= {Forces, Occupations}
      requires !dwf ==> Forces !in pendingSend && Forces !in pendingRecv
      modifies this`waitSendStates, this`waitRecvStates, this`waitSendForces, this`waitRecvForces,
               this`pendingSend, this`pendingRecv, this`nNextStatesKpi
      ensures Valid() && nNextStatesKpi == received
      ensures step == 0 ==> Occupations !in pendingSend
      ensures Occupations !in pendingRecv
      ensures pendingSend.Keys <= {States, Forces, Occupations}
      ensures !dwf ==> Forces !in pendingSend && Forces !in pendingRecv
    {
      SetNextPermutationStateNumber(received);
      StartStatesPermutation();
      if dwf {
        CompleteReceivingForces(step);
        CompleteSendingForces(step);
        StartForcesPermutation();
      }
    }

    method PostOccupations(step: nat, dwf: bool)
      requires Valid()
      requires step == 0 ==> Occupations !in pendingSend
      requires Occupations !in pendingRecv
      requires pendingSend.Keys <= {States, Forces, Occupations}
      requires !dwf ==> Forces !in pendingSend && Forces !in pendingRecv
      modifies this`waitSendOccupations, this`waitRecvOccupations, this`pendingSend, this`pendingRecv,
               this`nStatesKpi, sendBufOccupation
      ensures InRotation(dwf)
      ensures nStatesKpi == old(nNextStatesKpi)
    {
      CompleteSendingOccupations(step);
      StartOccupationsPermutation();
      EndStep();
    }

    /** After the last step: completes everything still in flight. */
    method Drain(dwf: bool, incoming: seq<real>)
      requires Valid()
      requires Occupations in pendingRecv ==> |incoming| == pendingRecv[Occupations]
      requires !dwf ==> Forces !in pendingSend && Forces !in pendingRecv
      modifies this`waitSendStates, this`waitRecvStates, this`waitSendForces, this`waitRecvForces,
               this`waitSendOccupations, this`waitRecvOccupations, this`pendingSend, this`pendingRecv, occKi
      ensures Valid() && Idle()
      ensures waitSendStates == 0 && waitRecvStates == 0 && waitSendOccupations == 0 && waitRecvOccupations == 0
      ensures waitSendForces == 0 && waitRecvForces == 0
    {
      CompleteReceivingStates(1);
      CompleteSendingStates(1);
      CompleteReceivingOccupations(1, incoming);
      CompleteSendingOccupations(1);
      if dwf {
        CompleteReceivingForces(1);
        CompleteSendingForces(1);
      }
      assert pendingSend.Keys == {} && pendingRecv.Keys == {};
    }

    /**
     * The whole rotation on this column followed by the final drain. counts[c]
     * is the number of local states of column c; at step s the left-hand
     * neighbour announces the size of the block it holds after s+1 rotations,
     * and incoming[s] are the occupations that reach this column at step s
     * (incoming[npcol] those completed by the drain).
     */
    method RunRotation(dwf: bool, ghost counts: seq<nat>, received: seq<nat>, incoming: seq<seq<real>>)
      requires Valid() && Idle()
      requires |counts| == npcol && |received| == npcol && |incoming| == npcol + 1
      requires nStatesKpi == counts[mycol]
      requires forall s :: 0 <= s < npcol ==> received[s] <= capacity
      requires forall s :: 0 <= s < npcol ==> received[s] == Ring.RotateN(counts, s + 1)[mycol]
      requires forall s :: 1 <= s <= npcol ==> |incoming[s]| == received[s - 1]
      modifies this`waitSendStates, this`waitRecvStates, this`waitSendForces, this`waitRecvForces,
               this`waitSendOccupations, this`waitRecvOccupations, this`pendingSend, this`pendingRecv,
               this`nStatesKpi, this`nNextStatesKpi, occKi, sendBufOccupation
      ensures Valid() && Idle()
      ensures nStatesKpi == counts[mycol]
      ensures waitSendStates == 0 && waitRecvStates == 0 && waitSendOccupations == 0 && waitRecvOccupations == 0
      ensures waitSendForces == 0 && waitRecvForces == 0
    {
      var step := 0;
      while step < npcol
        invariant 0 <= step <= npcol
        invariant step == 0 ==> Valid() && Idle()
        invariant step != 0 ==> InRotation(dwf) && nStatesKpi == received[step - 1]
      {
        RotationStep(step, dwf, received[step], incoming[step]);
        step := step + 1;
      }
      Drain(dwf, incoming[npcol]);
      Ring.FullCycle(counts);
    }
  }
}
