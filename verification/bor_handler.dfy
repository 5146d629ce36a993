/** The message handler of the `bor` module (bor/handler.go): admission of a span proposal.
    A span is a contiguous range of sidechain blocks bound to a frozen validator set; a
    proposal is admitted only if it continues the last stored span, and only then is the
    validator set frozen for it. */
module BorHandler {
  import opened Outcomes

  const MaxU64: int := 0xFFFF_FFFF_FFFF_FFFF

  /** Go's `uint64`. */
  newtype u64 = x: int | 0 <= x <= 0xFFFF_FFFF_FFFF_FFFF

  /** Go's `x + 1` on `uint64`, which wraps to 0 past the maximum. */
  function Inc(x: u64): (r: u64)
    ensures x as int < MaxU64 ==> r as int == x as int + 1
    ensures x as int == MaxU64 ==> r == 0
  {
    ((x as int + 1) % (MaxU64 + 1)) as u64
  }

  /** A stored span as the handler sees it. Its end block and frozen validator set are kept
      by the span keeper and never read by the handler. */
  datatype Span = Span(id: u64, startBlock: u64, chainId: string)

  /** The fields of `MsgProposeSpan` the handler reads. */
  datatype MsgProposeSpan = MsgProposeSpan(id: u64, startBlock: u64, endBlock: u64, chainId: string)

  /** Messages routed to this module: a span proposal, or any other message type. */
  datatype Msg = ProposeSpan(propose: MsgProposeSpan) | Unrecognised(msgType: string)

  /** The error results the handler produces (`sdk.ErrTxDecode` and the three `common` span errors). */
  datatype SpanError =
    | ErrTxDecode
    | ErrSpanNotFound
    | ErrSpanNotInContinuity
    | ErrUnableToFreezeValSet

  /** The `propose-span` event of a successful proposal: the success flag, the span ID (emitted
      both as the bor sync ID and as the amount) and the span's start block. */
  datatype SpanEvent = SpanEvent(success: string, borSyncId: u64, amount: u64, spanStartBlock: u64)

  /** The span keeper the handler is given. Its implementation is not part of this model, so
      both operations are arbitrary functions over an arbitrary state `S` that may fail. */
  datatype Keeper<!S> = Keeper(
    getLastSpan: S -> Option<Span>,
    freezeSet: (S, u64, u64, string) -> Option<S>)

  /** The keeper state the handler leaves behind, with the result it reports. */
  datatype Outcome<S> = Outcome(state: S, result: Result<SpanEvent, SpanError>)

  /** The three continuity conditions a proposal must meet against the last span. */
  predicate InContinuity(last: Span, msg: MsgProposeSpan) {
    && msg.id == Inc(last.id)
    && last.startBlock <= msg.startBlock
    && msg.startBlock <= msg.endBlock
  }

  /** `HandleMsgProposeSpan`: read the last span, check continuity, freeze, read the last span
      again, and report success. */
  function HandleMsgProposeSpan<S>(k: Keeper<S>, s: S, msg: MsgProposeSpan): (o: Outcome<S>)
    // the last span cannot be read: span-not-found, nothing written
    ensures k.getLastSpan(s).None? ==> o == Outcome(s, Failure(ErrSpanNotFound))
    // any one broken continuity condition rejects before anything is written
    ensures k.getLastSpan(s).Some? ==>
              var last := k.getLastSpan(s).value;
              (msg.id != Inc(last.id) || msg.startBlock < last.startBlock || msg.endBlock < msg.startBlock) ==>
                o == Outcome(s, Failure(ErrSpanNotInContinuity))
    // on a continuous proposal, a failed freeze is reported as such and writes nothing; after a
    // successful freeze the frozen state stays, and a failed second read is span-not-found
    ensures k.getLastSpan(s).Some? && InContinuity(k.getLastSpan(s).value, msg) ==>
              match k.freezeSet(s, msg.id, msg.startBlock, msg.chainId)
              case None => o == Outcome(s, Failure(ErrUnableToFreezeValSet))
              case Some(frozen) =>
                o.state == frozen && (k.getLastSpan(frozen).None? ==> o.result == Failure(ErrSpanNotFound))
    ensures o.result == Failure(ErrUnableToFreezeValSet) ==>
              o.state == s && k.freezeSet(s, msg.id, msg.startBlock, msg.chainId).None?
    // the state changes only through a freeze of the proposed span on a continuous proposal
    ensures o.state == s ||
              (k.getLastSpan(s).Some? && InContinuity(k.getLastSpan(s).value, msg) &&
               k.freezeSet(s, msg.id, msg.startBlock, msg.chainId) == Some(o.state))
    // success is reported only after a successful freeze, and carries the proposal's ID and start
    ensures o.result.Success? <==>
              && k.getLastSpan(s).Some?
              && InContinuity(k.getLastSpan(s).value, msg)
              && k.freezeSet(s, msg.id, msg.startBlock, msg.chainId).Some?
              && o.state == k.freezeSet(s, msg.id, msg.startBlock, msg.chainId).value
              && k.getLastSpan(o.state).Some?
    ensures o.result.Success? ==> o.result.value == SpanEvent("true", msg.id, msg.id, msg.startBlock)
  {
    match k.getLastSpan(s)
    case None => Outcome(s, Failure(ErrSpanNotFound))
    case Some(lastSpan) =>
      if Inc(lastSpan.id) != msg.id || msg.startBlock < lastSpan.startBlock || msg.endBlock < msg.startBlock then
        Outcome(s, Failure(ErrSpanNotInContinuity))
      else
        match k.freezeSet(s, msg.id, msg.startBlock, msg.chainId)
        case None => Outcome(s, Failure(ErrUnableToFreezeValSet))
        case Some(frozen) =>
          if k.getLastSpan(frozen).None? then
            Outcome(frozen, Failure(ErrSpanNotFound))
          else
            Outcome(frozen, Success(SpanEvent("true", msg.id, msg.id, msg.startBlock)))
  }

  /** `NewHandler`: dispatch on the message type. */
  function NewHandler<S>(k: Keeper<S>, s: S, msg: Msg): (o: Outcome<S>)
    // a span proposal is handled by `HandleMsgProposeSpan`
    ensures msg.ProposeSpan? ==> o == HandleMsgProposeSpan(k, s, msg.propose)
    // anything but a span proposal is a decode error and changes nothing
    ensures msg.Unrecognised? ==> o == Outcome(s, Failure(ErrTxDecode))
    // a decode error arises for exactly the unrecognised messages
    ensures o.result == Failure(ErrTxDecode) <==> msg.Unrecognised?
    ensures msg.ProposeSpan? ==> o.result.Success? ==>
              o.result.value.borSyncId == msg.propose.id && o.result.value.spanStartBlock == msg.propose.startBlock
  {
    match msg
    case ProposeSpan(p) => HandleMsgProposeSpan(k, s, p)
    case Unrecognised(_) => Outcome(s, Failure(ErrTxDecode))
  }

  /** An admitted proposal continues the last span: its ID is one more (away from the uint64
      maximum), its start is not before the last start, and its range is not reversed. */
  lemma AdmittedContinuesLastSpan<S>(k: Keeper<S>, s: S, msg: MsgProposeSpan)
    requires HandleMsgProposeSpan(k, s, msg).result.Success?
    ensures k.getLastSpan(s).Some?
    ensures k.getLastSpan(s).value.id as int < MaxU64 ==>
              msg.id as int == k.getLastSpan(s).value.id as int + 1
    ensures k.getLastSpan(s).value.startBlock <= msg.startBlock <= msg.endBlock
  {
  }

  // ---------------------------------------------------------------------------
  // A reference span table, used to state what a run of proposals does.

  /** The spans frozen so far, oldest first. */
  type SpanTable = seq<Span>

  /** Whether some span in the table already has the given ID. */
  predicate Frozen(t: SpanTable, id: u64) {
    exists i | 0 <= i < |t| :: t[i].id == id
  }

  /** A span keeper over a table: the last span is the newest entry (none when the table is
      empty), and freezing appends the span unless its ID is already frozen. */
  function TableKeeper(): Keeper<SpanTable> {
    Keeper(
      (t: SpanTable) => if |t| == 0 then None else Some(t[|t| - 1]),
      (t: SpanTable, id: u64, start: u64, chainId: string) =>
        if Frozen(t, id) then None else Some(t + [Span(id, start, chainId)]))
  }

  /** Span IDs follow one another (with uint64 wrap-around) and start blocks never go back. */
  predicate Contiguous(t: SpanTable) {
    forall i | 0 < i < |t| :: t[i].id == Inc(t[i - 1].id) && t[i - 1].startBlock <= t[i].startBlock
  }

  /** The table after the messages are handled one at a time, in order. */
  function Deliver(t: SpanTable, msgs: seq<Msg>): SpanTable
    decreases |msgs|
  {
    if msgs == [] then t else Deliver(NewHandler(TableKeeper(), t, msgs[0]).state, msgs[1..])
  }

  /** One handled message keeps the table contiguous and only ever appends to it. */
  lemma HandleKeepsContiguous(t: SpanTable, msg: Msg)
    requires Contiguous(t)
    ensures var t' := NewHandler(TableKeeper(), t, msg).state;
            Contiguous(t') && |t| <= |t'| && t'[..|t|] == t
  {
    var t' := NewHandler(TableKeeper(), t, msg).state;
    if t' != t {
      assert msg.ProposeSpan?;
      var p := msg.propose;
      assert t' == t + [Span(p.id, p.startBlock, p.chainId)];
      assert t'[|t|].id == Inc(t'[|t| - 1].id);
    }
  }

  /** Any run of messages keeps a contiguous table contiguous, and never rewrites a span once
      it is stored. */
  lemma {:induction false} DeliverKeepsContiguous(t: SpanTable, msgs: seq<Msg>)
    requires Contiguous(t)
    ensures var t' := Deliver(t, msgs);
            Contiguous(t') && |t| <= |t'| && t'[..|t|] == t
    decreases |msgs|
  {
    if msgs != [] {
      var t1 := NewHandler(TableKeeper(), t, msgs[0]).state;
      HandleKeepsContiguous(t, msgs[0]);
      DeliverKeepsContiguous(t1, msgs[1..]);
      var t' := Deliver(t1, msgs[1..]);
      assert t'[..|t|] == t'[..|t1|][..|t|];
    }
  }

  /** The continuity check uses uint64 arithmetic: after the span with the largest ID, a
      proposal with ID 0 is admitted. */
  lemma IdWrapsAfterMaximum()
    ensures var t := [Span(MaxU64 as u64, 10, "c")];
            var o := NewHandler(TableKeeper(), t, ProposeSpan(MsgProposeSpan(0, 10, 20, "c")));
            o.result.Success? && o.state == t + [Span(0, 10, "c")]
  {
    var t := [Span(MaxU64 as u64, 10, "c")];
    assert !Frozen(t, 0);
  }
}
