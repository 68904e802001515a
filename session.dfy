/** The per-connection session of ConnectionThread.run() as a state machine over the
    results of successive reads: each chunk is split into packets, each packet is
    dispatched by type, and when the loop ends the session is finalised. The socket is
    abstract: the reads are given, the output stream accepts a given number of writes and
    then throws IOException, and listener callbacks are recorded as events. */
module Session {
  import opened JavaBytes
  import opened InPackets
  import OutPacket

  /** Size of the read buffer of run(). */
  const BUFFER_SIZE: nat := 500

  /** What one input.read(buffer) gives: a chunk of bytes, or an IOException. */
  datatype ReadResult = Chunk(data: seq<JByte>) | IoError

  /** A read returns between 1 and 500 bytes (read() blocks until a byte is available). */
  predicate ValidRead(r: ReadResult)
  {
    r.Chunk? ==> 1 <= |r.data| <= BUFFER_SIZE
  }

  predicate ValidReads(rs: seq<ReadResult>)
  {
    forall i :: 0 <= i < |rs| ==> ValidRead(rs[i])
  }

  /** A measurement, AndWeight.java. */
  datatype AndWeight = AndWeight(weight: Kilograms, measureDate: Date)

  /** What the thread does to its listener (WeightListener.java) and its socket, in order. */
  datatype Event =
    | NewThread                          // onNewThread(this), from the constructor
    | OnWeight(weight: AndWeight)
    | OnInvalidMeasure
    | OnError
    | OnWeightList(weights: seq<AndWeight>)
    | SocketClose                        // socket.close(); a failure to close is swallowed
    | OnDisconnect                       // onDisonnect()
  {
    /** The callbacks the read loop itself makes. */
    predicate DuringLoop()
    {
      OnWeight? || OnInvalidMeasure? || OnError?
    }
  }

  /** Where the loop is: still reading, left by an IOException of a read or of a write,
      or aborted by an exception no handler catches. */
  datatype Phase = Reading | ReadFailed | WriteFailed | Crashed

  /** How run() treats a NumberFormatException of Float.parseFloat: as written it escapes
      the thread; the corrected session reports it like a malformed packet. */
  datatype Policy = AsWritten | NumberFormatReported

  /** The state the loop carries: its phase, the local weight list, the bytes written to
      the output stream, the events so far and the writes the stream still accepts. */
  datatype Progress = Progress(phase: Phase, weights: seq<AndWeight>, output: seq<JByte>, events: seq<Event>, writesLeft: nat)

  /** The state run() starts from. */
  predicate Initial(s: Progress)
  {
    s.phase == Reading && s.weights == []
  }

  /** The reply after each accepted weight. */
  const ACK: seq<JByte> := OutPacket.Bytes(OutPacket.AcceptedNoDisconnect)


  /** What the switch of run() makes of one packet. */
  datatype Outcome =
    | Ignored              // a control packet: nothing is done
    | Invalid              // the scale reported an invalid measure
    | Malformed            // a packet the session reports as an error
    | Aborted              // an exception no handler of run() catches
    | Measured(w: AndWeight)

  /** The switch on the packet type, with the catch clauses of the WEIGHT case. */
  function Dispatch(p: InPacket, floatSyntax: seq<JByte> -> bool, policy: Policy): (o: Outcome)
    ensures o.Aborted? ==> policy == AsWritten && p.WeightOf(floatSyntax) == Failure(NumberFormatException)
    ensures o.Measured? ==> p.GetType() == Weight && p.WeightOf(floatSyntax) == Success(o.w.weight)
  {
    match p.GetType()
    case RequestPatientInfo => Ignored
    case CannotWaitAnymoreForPatientInfo => Ignored
    case Weight =>
      (match p.WeightOf(floatSyntax)
       case Failure(InvalidMeasureException) => Invalid
       case Failure(PacketExpection(_)) => Malformed
       case Failure(NumberFormatException) => if policy == AsWritten then Aborted else Malformed
       case Failure(RuntimeException) => Aborted
       case Success(kg) =>
         match p.MeasureDate()
         case Failure(_) => Malformed
         case Success(date) => Measured(AndWeight(kg, date)))
    case DataNotWeight => Malformed
    case Unknown => Malformed
  }

  /** The outcomes of the packets of one chunk, in order. */
  function Outcomes(ps: seq<InPacket>, floatSyntax: seq<JByte> -> bool, policy: Policy): seq<Outcome>
  {
    seq(|ps|, i requires 0 <= i < |ps| => Dispatch(ps[i], floatSyntax, policy))
  }

  /** The effect of one outcome: a callback, and for a measurement the append to the list
      and the ACCEPTED_NO_DISCONNECT reply, whose failure leaves the loop. */
  function Apply(s: Progress, o: Outcome): (r: Progress)
    requires s.phase == Reading
    ensures s.events <= r.events && s.weights <= r.weights && s.output <= r.output
    ensures r.phase == Reading || o.Aborted? || (o.Measured? && s.writesLeft == 0)
  {
    match o
    case Ignored => s
    case Invalid => s.(events := s.events + [OnInvalidMeasure])
    case Malformed => s.(events := s.events + [OnError])
    case Aborted => s.(phase := Crashed)
    case Measured(w) =>
      var announced := s.(events := s.events + [OnWeight(w)], weights := s.weights + [w]);
      if s.writesLeft == 0 then announced.(phase := WriteFailed)
      else announced.(output := s.output + ACK, writesLeft := s.writesLeft - 1)
  }

  /** The for loop over the packets of a chunk, given their outcomes: each is applied in
      order until the loop is left. */
  function ApplyAll(s: Progress, os: seq<Outcome>): (r: Progress)
    ensures s.phase != Reading ==> r == s
    ensures s.events <= r.events && s.weights <= r.weights && s.output <= r.output
  {
    if os == [] then s
    else
      var t := ApplyAll(s, os[..|os| - 1]);
      if t.phase == Reading then Apply(t, os[|os| - 1]) else t
  }

  /** One iteration of the while loop: a failed read leaves the loop, a chunk is split and
      its packets are handled. */
  function HandleRead(s: Progress, r: ReadResult, floatSyntax: seq<JByte> -> bool, policy: Policy): (t: Progress)
    requires ValidRead(r)
    ensures s.phase != Reading ==> t == s
    ensures s.phase == Reading && r.IoError? ==> t == s.(phase := ReadFailed)
    ensures s.events <= t.events && s.weights <= t.weights && s.output <= t.output
  {
    if s.phase != Reading then s
    else
      match r
      case IoError => s.(phase := ReadFailed)
      case Chunk(data) => ApplyAll(s, Outcomes(SplitChunk(data), floatSyntax, policy))
  }

  /** The while loop over a sequence of reads. */
  function HandleReads(s: Progress, rs: seq<ReadResult>, floatSyntax: seq<JByte> -> bool, policy: Policy): (r: Progress)
    requires ValidReads(rs)
    ensures s.phase != Reading ==> r == s
  {
    if rs == [] then s
    else HandleRead(HandleReads(s, rs[..|rs| - 1], floatSyntax, policy), rs[|rs| - 1], floatSyntax, policy)
  }

  /** After the loop: the weight list, then the socket is closed, then the disconnection.
      A thread killed by an uncaught exception does none of these. */
  function Finalise(s: Progress): (r: Progress)
    ensures r.weights == s.weights && r.output == s.output && r.writesLeft == s.writesLeft
    ensures s.phase == Crashed ==> r.events == s.events
    ensures s.phase != Crashed ==> r.events == s.events + [OnWeightList(s.weights), SocketClose, OnDisconnect]
  {
    if s.phase == Crashed then s
    else s.(events := s.events + [OnWeightList(s.weights), SocketClose, OnDisconnect])
  }

  /** The whole of run(). */
  function Run(s: Progress, rs: seq<ReadResult>, floatSyntax: seq<JByte> -> bool, policy: Policy): (r: Progress)
    requires ValidReads(rs)
    ensures r.output == HandleReads(s, rs, floatSyntax, policy).output
    ensures r.weights == HandleReads(s, rs, floatSyntax, policy).weights
    ensures r.phase == HandleReads(s, rs, floatSyntax, policy).phase
  {
    Finalise(HandleReads(s, rs, floatSyntax, policy))
  }

  // ---------------------------------------------------------------- reference definitions

  /** The measurement a packet yields when the session accepts it, if any. */
  function Accepted(p: InPacket, floatSyntax: seq<JByte> -> bool): Option<AndWeight>
  {
    match p.WeightOf(floatSyntax)
    case Failure(_) => None
    case Success(kg) =>
      match p.MeasureDate()
      case Failure(_) => None
      case Success(date) => Some(AndWeight(kg, date))
  }

  /** The measurements of a list of packets, in order. */
  function AcceptedWeights(ps: seq<InPacket>, floatSyntax: seq<JByte> -> bool): seq<AndWeight>
  {
    if ps == [] then []
    else
      AcceptedWeights(ps[..|ps| - 1], floatSyntax)
      + match Accepted(ps[|ps| - 1], floatSyntax) case Some(w) => [w] case None => []
  }

  /** The measurements among a list of outcomes, in order. */
  function Measurements(os: seq<Outcome>): seq<AndWeight>
  {
    if os == [] then []
    else Measurements(os[..|os| - 1]) + if os[|os| - 1].Measured? then [os[|os| - 1].w] else []
  }

  /** All packets of a sequence of reads, in arrival order. */
  function Packets(rs: seq<ReadResult>): seq<InPacket>
    requires ValidReads(rs)
  {
    if rs == [] then []
    else
      Packets(rs[..|rs| - 1])
      + match rs[|rs| - 1] case Chunk(data) => SplitChunk(data) case IoError => []
  }

  /** The measurements announced by onWeight in a list of events. */
  function Announced(es: seq<Event>): seq<AndWeight>
  {
    if es == [] then []
    else Announced(es[..|es| - 1]) + if es[|es| - 1].OnWeight? then [es[|es| - 1].weight] else []
  }

  /** `n` copies of the ACCEPTED_NO_DISCONNECT reply. */
  function Acks(n: nat): seq<JByte>
  {
    if n == 0 then [] else Acks(n - 1) + ACK
  }

  // ---------------------------------------------------------------- the dispatch table

  /** What the switch makes of each packet: control packets are ignored; a weight the scale
      marked invalid gives onInvalidMeasure; only a NumberFormatException, and only as
      written, escapes the loop; a packet is measured exactly when it yields a measurement;
      everything else is reported as an error. */
  lemma DispatchByType(p: InPacket, floatSyntax: seq<JByte> -> bool, policy: Policy)
    ensures Dispatch(p, floatSyntax, policy) == Ignored <==>
              p.GetType() == RequestPatientInfo || p.GetType() == CannotWaitAnymoreForPatientInfo
    ensures Dispatch(p, floatSyntax, policy) == Invalid <==> p.WeightOf(floatSyntax) == Failure(InvalidMeasureException)
    ensures Dispatch(p, floatSyntax, policy) == Aborted <==>
              policy == AsWritten && p.WeightOf(floatSyntax) == Failure(NumberFormatException)
    ensures Dispatch(p, floatSyntax, policy).Measured? <==> Accepted(p, floatSyntax).Some?
    ensures Dispatch(p, floatSyntax, policy).Measured? ==> Dispatch(p, floatSyntax, policy).w == Accepted(p, floatSyntax).value
  {
  }

  /** What one packet does to the loop state, by type: control packets change nothing;
      DATA_NOT_WEIGHT, UNKNOWN and a weight packet getWeight rejects give one onError; an
      invalid measure gives one onInvalidMeasure; none of these appends or writes. A
      measurement is announced, then appended, then acknowledged, and a failed write
      leaves the loop after the append. */
  lemma PacketEffects(s: Progress, p: InPacket, floatSyntax: seq<JByte> -> bool, policy: Policy)
    requires s.phase == Reading
    ensures var t := Apply(s, Dispatch(p, floatSyntax, policy));
      (p.GetType() == RequestPatientInfo || p.GetType() == CannotWaitAnymoreForPatientInfo ==> t == s)
      && (p.GetType() == DataNotWeight || p.GetType() == Unknown ==> t == s.(events := s.events + [OnError]))
      && (p.GetType() == Weight && p.WeightOf(floatSyntax) == Failure(InvalidMeasureException) ==>
            t == s.(events := s.events + [OnInvalidMeasure]))
      && (p.GetType() == Weight && p.WeightOf(floatSyntax).Failure? && p.WeightOf(floatSyntax).error.PacketExpection? ==>
            t == s.(events := s.events + [OnError]))
  {
    DispatchByType(p, floatSyntax, policy);
  }

  /** An accepted weight: onWeight, then the append, then the ACCEPTED_NO_DISCONNECT reply;
      with no write left the loop is left with the weight appended and nothing written. */
  lemma MeasuredEffects(s: Progress, p: InPacket, w: AndWeight, floatSyntax: seq<JByte> -> bool, policy: Policy)
    requires s.phase == Reading && Accepted(p, floatSyntax) == Some(w)
    ensures var t := Apply(s, Dispatch(p, floatSyntax, policy));
      t.events == s.events + [OnWeight(w)] && t.weights == s.weights + [w]
      && (s.writesLeft > 0 ==> t.phase == Reading && t.output == s.output + ACK && t.writesLeft == s.writesLeft - 1)
      && (s.writesLeft == 0 ==> t.phase == WriteFailed && t.output == s.output)
  {
    DispatchByType(p, floatSyntax, policy);
  }

  /** A packet yields a measurement exactly when its weight parses, and the measurement
      carries that weight and the measure date of the packet. */
  lemma AcceptedIsWeight(p: InPacket, floatSyntax: seq<JByte> -> bool)
    ensures Accepted(p, floatSyntax).Some? <==> p.WeightOf(floatSyntax).Success?
    ensures Accepted(p, floatSyntax).Some? ==>
              p.MeasureDate().Success?
              && Accepted(p, floatSyntax).value == AndWeight(p.WeightOf(floatSyntax).value, p.MeasureDate().value)
  {
    if p.WeightOf(floatSyntax).Success? {
      WeightRefinesData(p);
    }
  }

  /** The measurements among the outcomes of a packet list are the accepted weights of
      that list, whatever the policy. */
  lemma {:induction false} MeasurementsAreAccepted(ps: seq<InPacket>, floatSyntax: seq<JByte> -> bool, policy: Policy)
    ensures Measurements(Outcomes(ps, floatSyntax, policy)) == AcceptedWeights(ps, floatSyntax)
  {
    if ps != [] {
      var os := Outcomes(ps, floatSyntax, policy);
      var init := ps[..|ps| - 1];
      assert os[..|os| - 1] == Outcomes(init, floatSyntax, policy);
      MeasurementsAreAccepted(init, floatSyntax, policy);
      DispatchByType(ps[|ps| - 1], floatSyntax, policy);
    }
  }

  // ---------------------------------------------------------------- the loop invariant

  /** The events of `s` extend those of `s0` with loop callbacks only, and the weight list
      is exactly what onWeight announced, in order. */
  ghost predicate Logged(s0: Progress, s: Progress)
  {
    |s0.events| <= |s.events| && s.events[..|s0.events|] == s0.events
    && (forall i :: |s0.events| <= i < |s.events| ==> s.events[i].DuringLoop())
    && s.weights == Announced(s.events[|s0.events|..])
  }

  /** The output is one ACK per weight, except for the weight whose write failed. */
  predicate Replied(s0: Progress, s: Progress)
  {
    s.writesLeft <= s0.writesLeft
    && s.output == s0.output + Acks(s0.writesLeft - s.writesLeft)
    && (if s.phase == WriteFailed then s.writesLeft == 0 && |s.weights| == s0.writesLeft + 1
        else |s.weights| == s0.writesLeft - s.writesLeft)
  }

  /** What holds of every state the loop reaches from an initial state `s0`. */
  ghost predicate Inv(s0: Progress, s: Progress)
  {
    Logged(s0, s) && Replied(s0, s)
  }

  lemma InvStart(s0: Progress)
    requires Initial(s0)
    ensures Inv(s0, s0)
  {
    assert s0.events[|s0.events|..] == [];
  }

  /** Logging one loop callback keeps the log consistent with the weight list. */
  lemma {:induction false} LoggedAppend(s0: Progress, s: Progress, e: Event)
    requires Logged(s0, s) && e.DuringLoop()
    ensures Logged(s0, s.(events := s.events + [e], weights := s.weights + if e.OnWeight? then [e.weight] else []))
  {
    var es := s.events + [e];
    assert es[..|s0.events|] == s.events[..|s0.events|];
    assert es[|s0.events|..] == s.events[|s0.events|..] + [e];
    assert es[|s0.events|..][..|es| - |s0.events| - 1] == s.events[|s0.events|..];
  }

  lemma {:induction false} InvApply(s0: Progress, s: Progress, o: Outcome)
    requires Inv(s0, s) && s.phase == Reading
    ensures Inv(s0, Apply(s, o))
  {
    match o
    case Ignored =>
    case Invalid => LoggedAppend(s0, s, OnInvalidMeasure);
    case Malformed => LoggedAppend(s0, s, OnError);
    case Aborted =>
    case Measured(w) => InvMeasured(s0, s, w);
  }

  lemma {:induction false} InvMeasured(s0: Progress, s: Progress, w: AndWeight)
    requires Inv(s0, s) && s.phase == Reading
    ensures Inv(s0, Apply(s, Measured(w)))
  {
    LoggedAppend(s0, s, OnWeight(w));
    if s.writesLeft > 0 {
      assert s0.writesLeft - (s.writesLeft - 1) == s0.writesLeft - s.writesLeft + 1;
    }
  }

  lemma {:induction false} InvApplyAll(s0: Progress, s: Progress, os: seq<Outcome>)
    requires Inv(s0, s) && s.phase == Reading
    ensures Inv(s0, ApplyAll(s, os))
  {
    if os != [] {
      var t := ApplyAll(s, os[..|os| - 1]);
      InvApplyAll(s0, s, os[..|os| - 1]);
      if t.phase == Reading {
        InvApply(s0, t, os[|os| - 1]);
      }
    }
  }

  lemma {:induction false} InvHandleReads(s0: Progress, rs: seq<ReadResult>, floatSyntax: seq<JByte> -> bool, policy: Policy)
    requires Initial(s0) && ValidReads(rs)
    ensures Inv(s0, HandleReads(s0, rs, floatSyntax, policy))
  {
    if rs == [] {
      InvStart(s0);
    } else {
      var t := HandleReads(s0, rs[..|rs| - 1], floatSyntax, policy);
      InvHandleReads(s0, rs[..|rs| - 1], floatSyntax, policy);
      if t.phase == Reading && rs[|rs| - 1].Chunk? {
        InvApplyAll(s0, t, Outcomes(SplitChunk(rs[|rs| - 1].data), floatSyntax, policy));
      }
    }
  }

  // ---------------------------------------------------------------- session properties

  /** The session ends with the weight list, then the socket close, then the disconnection,
      each exactly once and after every loop callback; a crashed thread makes only loop
      callbacks. */
  lemma {:induction false} FinalisedOnceInOrder(s0: Progress, rs: seq<ReadResult>, floatSyntax: seq<JByte> -> bool, policy: Policy)
    requires Initial(s0) && ValidReads(rs)
    ensures var r := Run(s0, rs, floatSyntax, policy);
      |s0.events| <= |r.events| && r.events[..|s0.events|] == s0.events
      && (r.phase != Crashed ==>
            |r.events| == |HandleReads(s0, rs, floatSyntax, policy).events| + 3
            && r.events[|r.events| - 3..] == [OnWeightList(r.weights), SocketClose, OnDisconnect]
            && forall i :: |s0.events| <= i < |r.events| - 3 ==> r.events[i].DuringLoop())
      && (r.phase == Crashed ==> forall i :: |s0.events| <= i < |r.events| ==> r.events[i].DuringLoop())
  {
    InvHandleReads(s0, rs, floatSyntax, policy);
    var t := HandleReads(s0, rs, floatSyntax, policy);
    var r := Run(s0, rs, floatSyntax, policy);
    if r.phase != Crashed {
      assert r.events == t.events + [OnWeightList(r.weights), SocketClose, OnDisconnect];
      assert forall i :: |s0.events| <= i < |r.events| - 3 ==> r.events[i] == t.events[i];
    }
  }

  /** The bytes written are whole ACCEPTED_NO_DISCONNECT replies, one per accepted weight,
      except that the write of the last weight failed when the loop left on a write. */
  lemma RepliesAreAcks(s0: Progress, rs: seq<ReadResult>, floatSyntax: seq<JByte> -> bool, policy: Policy)
    requires Initial(s0) && ValidReads(rs)
    ensures var r := Run(s0, rs, floatSyntax, policy);
      r.writesLeft <= s0.writesLeft
      && r.output == s0.output + Acks(s0.writesLeft - r.writesLeft)
      && (if r.phase == WriteFailed then s0.writesLeft - r.writesLeft == |r.weights| - 1
          else s0.writesLeft - r.writesLeft == |r.weights|)
  {
    InvHandleReads(s0, rs, floatSyntax, policy);
    var t := HandleReads(s0, rs, floatSyntax, policy);
    assert Replied(s0, t);
    var r := Run(s0, rs, floatSyntax, policy);
    assert r.writesLeft == t.writesLeft && r.output == t.output && r.phase == t.phase && r.weights == t.weights;
  }

  /** The weight list handed to onWeightList is exactly the measurements announced one by
      one through onWeight, in the same order. */
  lemma WeightListIsAnnounced(s0: Progress, rs: seq<ReadResult>, floatSyntax: seq<JByte> -> bool, policy: Policy)
    requires Initial(s0) && ValidReads(rs)
    ensures var t := HandleReads(s0, rs, floatSyntax, policy);
      |s0.events| <= |t.events| && t.weights == Announced(t.events[|s0.events|..])
  {
    InvHandleReads(s0, rs, floatSyntax, policy);
  }

  // ---------------------------------------------------------------- arrival order

  lemma {:induction false} ApplyAllWeights(s: Progress, os: seq<Outcome>)
    requires s.phase == Reading
    ensures var t := ApplyAll(s, os);
      t.weights <= s.weights + Measurements(os)
      && (t.phase == Reading ==> t.weights == s.weights + Measurements(os))
  {
    if os != [] {
      var init, last := os[..|os| - 1], os[|os| - 1];
      ApplyAllWeights(s, init);
      var t := ApplyAll(s, init);
      var extra := if last.Measured? then [last.w] else [];
      assert s.weights + Measurements(os) == s.weights + Measurements(init) + extra;
      if t.phase == Reading {
        assert Apply(t, last).weights == t.weights + extra;
      }
    }
  }

  lemma {:induction false} AcceptedWeightsAppend(ps: seq<InPacket>, qs: seq<InPacket>, floatSyntax: seq<JByte> -> bool)
    ensures AcceptedWeights(ps + qs, floatSyntax) == AcceptedWeights(ps, floatSyntax) + AcceptedWeights(qs, floatSyntax)
  {
    if qs != [] {
      var init := qs[..|qs| - 1];
      assert (ps + qs)[..|ps + qs| - 1] == ps + init;
      AcceptedWeightsAppend(ps, init, floatSyntax);
    } else {
      assert ps + qs == ps;
    }
  }

  /** The accepted weights are kept in arrival order across chunks: the list is always a
      prefix of the measurements of all packets read, and all of them while the loop has
      not been left. */
  lemma {:induction false} WeightsInArrivalOrder(s0: Progress, rs: seq<ReadResult>, floatSyntax: seq<JByte> -> bool, policy: Policy)
    requires Initial(s0) && ValidReads(rs)
    ensures var t := HandleReads(s0, rs, floatSyntax, policy);
      t.weights <= AcceptedWeights(Packets(rs), floatSyntax)
      && (t.phase == Reading ==> t.weights == AcceptedWeights(Packets(rs), floatSyntax))
  {
    if rs != [] {
      var init, last := rs[..|rs| - 1], rs[|rs| - 1];
      WeightsInArrivalOrder(s0, init, floatSyntax, policy);
      var t := HandleReads(s0, init, floatSyntax, policy);
      assert HandleReads(s0, rs, floatSyntax, policy) == HandleRead(t, last, floatSyntax, policy);
      match last
      case IoError =>
        assert Packets(rs) == Packets(init);
      case Chunk(data) =>
        var chunk := SplitChunk(data);
        assert Packets(rs) == Packets(init) + chunk;
        AcceptedWeightsAppend(Packets(init), chunk, floatSyntax);
        if t.phase == Reading {
          ApplyAllWeights(t, Outcomes(chunk, floatSyntax, policy));
          MeasurementsAreAccepted(chunk, floatSyntax, policy);
        }
    }
  }

  // ---------------------------------------------------------------- what ends the loop

  /** Once the loop has been left, later packets change nothing. */
  lemma {:induction false} LeftLoopStaysLeft(s: Progress, os: seq<Outcome>, j: nat)
    requires j <= |os|
    requires ApplyAll(s, os[..j]).phase != Reading
    ensures ApplyAll(s, os) == ApplyAll(s, os[..j])
  {
    if j < |os| {
      assert os[..|os| - 1][..j] == os[..j];
      LeftLoopStaysLeft(s, os[..|os| - 1], j);
    } else {
      assert os[..j] == os;
    }
  }

  /** Once the loop has been left, later reads change nothing. */
  lemma {:induction false} LeftLoopIgnoresReads(s: Progress, rs: seq<ReadResult>, k: nat, floatSyntax: seq<JByte> -> bool, policy: Policy)
    requires k <= |rs| && ValidReads(rs)
    requires HandleReads(s, rs[..k], floatSyntax, policy).phase != Reading
    ensures HandleReads(s, rs, floatSyntax, policy) == HandleReads(s, rs[..k], floatSyntax, policy)
  {
    if k < |rs| {
      assert rs[..|rs| - 1][..k] == rs[..k];
      LeftLoopIgnoresReads(s, rs[..|rs| - 1], k, floatSyntax, policy);
    } else {
      assert rs[..k] == rs;
    }
  }

  /** No packet of the list makes Float.parseFloat throw. */
  predicate ParsesEverywhere(ps: seq<InPacket>, floatSyntax: seq<JByte> -> bool)
  {
    forall i :: 0 <= i < |ps| ==> ps[i].WeightOf(floatSyntax) != Failure(NumberFormatException)
  }

  /** No outcome of the list aborts the thread. */
  predicate NoAbort(os: seq<Outcome>)
  {
    forall i :: 0 <= i < |os| ==> os[i] != Aborted
  }

  lemma NoAbortWhenParsed(ps: seq<InPacket>, floatSyntax: seq<JByte> -> bool, policy: Policy)
    requires policy == NumberFormatReported || ParsesEverywhere(ps, floatSyntax)
    ensures NoAbort(Outcomes(ps, floatSyntax, policy))
  {
    forall i | 0 <= i < |ps| ensures Outcomes(ps, floatSyntax, policy)[i] != Aborted {
      DispatchByType(ps[i], floatSyntax, policy);
    }
  }

  lemma {:induction false} OutcomesStayReading(s0: Progress, s: Progress, os: seq<Outcome>)
    requires Inv(s0, s) && s.phase == Reading && NoAbort(os)
    requires |s.weights| + |Measurements(os)| <= s0.writesLeft
    ensures ApplyAll(s, os).phase == Reading
  {
    if os != [] {
      var init := os[..|os| - 1];
      assert NoAbort(init);
      OutcomesStayReading(s0, s, init);
      InvApplyAll(s0, s, init);
      ApplyAllWeights(s, init);
    }
  }

  lemma ParsesEverywhereSplits(ps: seq<InPacket>, qs: seq<InPacket>, floatSyntax: seq<JByte> -> bool)
    requires ParsesEverywhere(ps + qs, floatSyntax)
    ensures ParsesEverywhere(ps, floatSyntax) && ParsesEverywhere(qs, floatSyntax)
  {
    forall i | 0 <= i < |ps| ensures ps[i].WeightOf(floatSyntax) != Failure(NumberFormatException) {
      assert ps[i] == (ps + qs)[i];
    }
    forall i | 0 <= i < |qs| ensures qs[i].WeightOf(floatSyntax) != Failure(NumberFormatException) {
      assert qs[i] == (ps + qs)[|ps| + i];
    }
  }

  /** Only an IOException ends the loop: over reads that never fail, into a stream that
      accepts every reply, the loop is still reading after any mix of malformed, invalid,
      unknown and control packets, provided no weight text makes Float.parseFloat throw
      or that exception is reported like a malformed packet. */
  lemma {:induction false} OnlyIoExceptionsEndTheLoop(s0: Progress, rs: seq<ReadResult>, floatSyntax: seq<JByte> -> bool, policy: Policy)
    requires Initial(s0) && ValidReads(rs)
    requires forall i :: 0 <= i < |rs| ==> rs[i].Chunk?
    requires |AcceptedWeights(Packets(rs), floatSyntax)| <= s0.writesLeft
    requires policy == NumberFormatReported || ParsesEverywhere(Packets(rs), floatSyntax)
    ensures HandleReads(s0, rs, floatSyntax, policy).phase == Reading
  {
    if rs != [] {
      var init := rs[..|rs| - 1];
      var chunk := SplitChunk(rs[|rs| - 1].data);
      assert Packets(rs) == Packets(init) + chunk;
      AcceptedWeightsAppend(Packets(init), chunk, floatSyntax);
      if policy == AsWritten {
        ParsesEverywhereSplits(Packets(init), chunk, floatSyntax);
      }
      OnlyIoExceptionsEndTheLoop(s0, init, floatSyntax, policy);
      var t := HandleReads(s0, init, floatSyntax, policy);
      InvHandleReads(s0, init, floatSyntax, policy);
      WeightsInArrivalOrder(s0, init, floatSyntax, policy);
      var os := Outcomes(chunk, floatSyntax, policy);
      MeasurementsAreAccepted(chunk, floatSyntax, policy);
      NoAbortWhenParsed(chunk, floatSyntax, policy);
      OutcomesStayReading(s0, t, os);
    }
  }

  // ---------------------------------------------------------------- a whole session

  /** A read of one weight frame is one packet, handled as its measurement. */
  lemma {:induction false} WeightFrameRead(s: Progress, p: InPacket, floatSyntax: seq<JByte> -> bool, policy: Policy)
    requires s.phase == Reading && Accepted(p, floatSyntax).Some?
    ensures ValidRead(Chunk(p.packet))
    ensures HandleRead(s, Chunk(p.packet), floatSyntax, policy) == Apply(s, Measured(Accepted(p, floatSyntax).value))
  {
    AcceptedIsWeight(p, floatSyntax);
    WeightRefinesData(p);
    assert SplitChunk(p.packet) == [p];
    DispatchByType(p, floatSyntax, policy);
    var os := Outcomes([p], floatSyntax, policy);
    assert os == [Measured(Accepted(p, floatSyntax).value)];
    assert os[..0] == [];
    assert ApplyAll(s, os) == Apply(s, os[0]);
    assert HandleRead(s, Chunk(p.packet), floatSyntax, policy) == ApplyAll(s, os);
  }

  /** The while loop, one more read. */
  lemma HandleReadsSnoc(s: Progress, rs: seq<ReadResult>, r: ReadResult, floatSyntax: seq<JByte> -> bool, policy: Policy)
    requires ValidReads(rs) && ValidRead(r)
    ensures ValidReads(rs + [r])
    ensures HandleReads(s, rs + [r], floatSyntax, policy) == HandleRead(HandleReads(s, rs, floatSyntax, policy), r, floatSyntax, policy)
  {
    assert (rs + [r])[..|rs|] == rs;
  }

  /** A weight frame read while the reply can still be written: announced, listed and
      acknowledged, and the loop goes on. */
  lemma WeightAcknowledged(s: Progress, p: InPacket, w: AndWeight, floatSyntax: seq<JByte> -> bool, policy: Policy)
    requires s.phase == Reading && s.writesLeft > 0 && Accepted(p, floatSyntax) == Some(w)
    ensures ValidRead(Chunk(p.packet))
    ensures HandleRead(s, Chunk(p.packet), floatSyntax, policy)
            == Progress(Reading, s.weights + [w], s.output + ACK, s.events + [OnWeight(w)], s.writesLeft - 1)
  {
    WeightFrameRead(s, p, floatSyntax, policy);
  }

  /** Two weight frames, then the connection drops: each weight is announced and
      acknowledged as it arrives, and the session ends with both, in order. */
  lemma {:induction false} TwoWeightsThenDisconnect(s0: Progress, p1: InPacket, p2: InPacket, w1: AndWeight, w2: AndWeight,
                                                    floatSyntax: seq<JByte> -> bool, policy: Policy)
    requires Initial(s0) && s0.writesLeft >= 2
    requires Accepted(p1, floatSyntax) == Some(w1) && Accepted(p2, floatSyntax) == Some(w2)
    ensures ValidReads([Chunk(p1.packet), Chunk(p2.packet), IoError])
    ensures var r := Run(s0, [Chunk(p1.packet), Chunk(p2.packet), IoError], floatSyntax, policy);
      r.events == s0.events + [OnWeight(w1), OnWeight(w2), OnWeightList([w1, w2]), SocketClose, OnDisconnect]
      && r.output == s0.output + ACK + ACK
  {
    var c1, c2 := Chunk(p1.packet), Chunk(p2.packet);
    var t1 := Progress(Reading, [w1], s0.output + ACK, s0.events + [OnWeight(w1)], s0.writesLeft - 1);
    var t2 := Progress(Reading, [w1, w2], t1.output + ACK, t1.events + [OnWeight(w2)], s0.writesLeft - 2);
    WeightAcknowledged(s0, p1, w1, floatSyntax, policy);
    assert HandleRead(s0, c1, floatSyntax, policy) == t1;
    WeightAcknowledged(t1, p2, w2, floatSyntax, policy);
    assert HandleRead(t1, c2, floatSyntax, policy) == t2;
    assert HandleRead(t2, IoError, floatSyntax, policy) == t2.(phase := ReadFailed);
    ThreeReads(s0, c1, c2, IoError, floatSyntax, policy);
    assert t2.events + [OnWeightList(t2.weights), SocketClose, OnDisconnect]
           == s0.events + [OnWeight(w1), OnWeight(w2), OnWeightList([w1, w2]), SocketClose, OnDisconnect];
  }

  /** The while loop over three reads is three iterations. */
  lemma ThreeReads(s: Progress, r1: ReadResult, r2: ReadResult, r3: ReadResult, floatSyntax: seq<JByte> -> bool, policy: Policy)
    requires ValidRead(r1) && ValidRead(r2) && ValidRead(r3)
    ensures ValidReads([r1, r2, r3])
    ensures HandleReads(s, [r1, r2, r3], floatSyntax, policy)
            == HandleRead(HandleRead(HandleRead(s, r1, floatSyntax, policy), r2, floatSyntax, policy), r3, floatSyntax, policy)
  {
    HandleReadsSnoc(s, [], r1, floatSyntax, policy);
    HandleReadsSnoc(s, [r1], r2, floatSyntax, policy);
    HandleReadsSnoc(s, [r1, r2], r3, floatSyntax, policy);
    assert [] + [r1] == [r1] && [r1] + [r2] == [r1, r2] && [r1, r2] + [r3] == [r1, r2, r3];
  }

  // ---------------------------------------------------------------- NumberFormatException

  /** A weight packet whose status is valid but whose weight text Float.parseFloat rejects. */
  predicate UnparsableWeight(p: InPacket, floatSyntax: seq<JByte> -> bool)
  {
    p.IsWeight() && p.packet[61] == 'T' as int && !floatSyntax(p.packet[63..70])
  }

  /** As written, one such packet kills the thread: the loop is aborted and the session is
      never finalised (no onWeightList, no close, no onDisonnect), although the scale is
      still connected. */
  lemma {:induction false} NumberFormatKillsSession(s0: Progress, p: InPacket, floatSyntax: seq<JByte> -> bool)
    requires Initial(s0) && UnparsableWeight(p, floatSyntax)
    ensures ValidReads([Chunk(p.packet)])
    ensures Run(s0, [Chunk(p.packet)], floatSyntax, AsWritten).phase == Crashed
    ensures Run(s0, [Chunk(p.packet)], floatSyntax, AsWritten).events == s0.events
  {
    var rs := [Chunk(p.packet)];
    assert SplitChunk(p.packet) == [p];
    assert p.WeightOf(floatSyntax) == Failure(NumberFormatException);
    var os := Outcomes([p], floatSyntax, AsWritten);
    assert os == [Aborted];
    assert os[..0] == [];
    assert ApplyAll(s0, os) == s0.(phase := Crashed);
    assert rs[..0] == [];
    assert HandleReads(s0, rs, floatSyntax, AsWritten) == s0.(phase := Crashed);
  }

  /** Reported like a malformed packet, the same packet gives one onError and the session
      goes on, and is finalised when the connection ends. */
  lemma {:induction false} NumberFormatReportedKeepsSession(s0: Progress, p: InPacket, floatSyntax: seq<JByte> -> bool)
    requires Initial(s0) && UnparsableWeight(p, floatSyntax)
    ensures ValidReads([Chunk(p.packet)])
    ensures Run(s0, [Chunk(p.packet)], floatSyntax, NumberFormatReported).events
              == s0.events + [OnError, OnWeightList([]), SocketClose, OnDisconnect]
  {
    var rs := [Chunk(p.packet)];
    assert SplitChunk(p.packet) == [p];
    assert p.WeightOf(floatSyntax) == Failure(NumberFormatException);
    var os := Outcomes([p], floatSyntax, NumberFormatReported);
    assert os == [Malformed];
    assert os[..0] == [];
    assert ApplyAll(s0, os) == s0.(events := s0.events + [OnError]);
    assert rs[..0] == [];
    assert HandleReads(s0, rs, floatSyntax, NumberFormatReported) == s0.(events := s0.events + [OnError]);
  }
}
