/** The thread that talks to one connected scale (ConnectionThread.java), as a class over
    an abstract socket: the reads still to come, an output stream that accepts a given
    number of writes before it throws IOException, and a log of what the thread did to its
    listener and its socket. run() is proved to follow the state machine of `Session`. */
module Service {
  import opened JavaBytes
  import opened InPackets
  import opened Session
  import OutPacket

  class ConnectionThread {
    /** What the socket still delivers, one read at a time; the socket is connected while
        this is not empty. */
    var incoming: seq<ReadResult>
    /** How many more writes the output stream accepts. */
    var writesLeft: nat
    /** Every byte written to the output stream. */
    var output: seq<JByte>
    /** The listener callbacks and socket operations, in order. */
    var events: seq<Event>
    /** The texts Float.parseFloat accepts. */
    const floatSyntax: seq<JByte> -> bool

    ghost predicate Valid()
      reads this
    {
      ValidReads(incoming)
    }

    /** new ConnectionThread(socket, listener): announces itself to the listener. */
    constructor (incoming: seq<ReadResult>, writesLeft: nat, floatSyntax: seq<JByte> -> bool)
      requires ValidReads(incoming)
      ensures Valid()
      ensures this.incoming == incoming && this.writesLeft == writesLeft && this.floatSyntax == floatSyntax
      ensures output == [] && events == [NewThread]
    {
      this.incoming := incoming;
      this.writesLeft := writesLeft;
      this.floatSyntax := floatSyntax;
      output := [];
      events := [NewThread];
    }

    /** input.read(buffer): the next read of the socket; a chunk is copied to the front of
        the buffer and its length returned. */
    method Read(buffer: array<JByte>) returns (failed: bool, bytes: int)
      requires Valid() && incoming != [] && buffer.Length == BUFFER_SIZE
      modifies this`incoming, buffer
      ensures Valid() && incoming == old(incoming)[1..]
      ensures failed <==> old(incoming)[0].IoError?
      ensures !failed ==> 1 <= bytes <= BUFFER_SIZE && buffer[..bytes] == old(incoming)[0].data
    {
      var r := incoming[0];
      assert ValidRead(r);
      incoming := incoming[1..];
      match r
      case IoError =>
        failed, bytes := true, -1;
      case Chunk(data) =>
        ArrayCopy(data, 0, buffer, 0, |data|);
        failed, bytes := false, |data|;
    }

    /** output.write(bytes); output.flush(): fails with IOException once the stream accepts
        no more writes, and then writes nothing. */
    method Write(bytes: seq<JByte>) returns (ok: bool)
      modifies this`output, this`writesLeft
      ensures ok <==> old(writesLeft) > 0
      ensures ok ==> output == old(output) + bytes && writesLeft == old(writesLeft) - 1
      ensures !ok ==> output == old(output) && writesLeft == old(writesLeft)
    {
      if writesLeft == 0 {
        return false;
      }
      output := output + bytes;
      writesLeft := writesLeft - 1;
      return true;
    }

    /** socket.close(); a failure to close is caught and only logged. */
    method Close()
      modifies this`events
      ensures events == old(events) + [SocketClose]
    {
      events := events + [SocketClose];
    }

    /** One pass of the for loop of run(): the switch on the packet type with the catch
        clauses of the WEIGHT case. `weights` is the local list of run(); the loop state
        after the pass is `Apply` of the packet's outcome, and `phase` says whether the
        loop goes on. */
    method HandlePacket(packet: InPacket, weights: seq<AndWeight>) returns (weights': seq<AndWeight>, phase: Phase)
      modifies this`output, this`writesLeft, this`events
      ensures Progress(phase, weights', output, events, writesLeft)
              == Apply(Progress(Reading, weights, old(output), old(events), old(writesLeft)), Dispatch(packet, floatSyntax, AsWritten))
    {
      weights', phase := weights, Reading;
      ghost var o := Dispatch(packet, floatSyntax, AsWritten);
      match packet.GetType() {
        case RequestPatientInfo =>
          assert o == Ignored;
        case CannotWaitAnymoreForPatientInfo =>
          assert o == Ignored;
        case Weight =>
          var weight := GetWeight(packet, floatSyntax);
          match weight {
            case Success(kg) =>
              WeightRefinesData(packet);
              var date := packet.MeasureDate();
              var w := AndWeight(kg, date.value);
              assert o == Measured(w);
              events := events + [OnWeight(w)];
              weights' := weights' + [w];
              var ok := Write(OutPacket.ACCEPTED_NO_DISCONNECT);
              if !ok {
                // the IOException of the write is caught outside the for loop
                phase := WriteFailed;
              }
            case Failure(InvalidMeasureException) =>
              assert o == Invalid;
              events := events + [OnInvalidMeasure];
            case Failure(PacketExpection(_)) =>
              assert o == Malformed;
              events := events + [OnError];
            case Failure(NumberFormatException) =>
              // no handler of run() catches it
              assert o == Aborted;
              phase := Crashed;
            case Failure(RuntimeException) =>
              assert false;
          }
        case DataNotWeight =>
          assert o == Malformed;
          events := events + [OnError];
        case Unknown =>
          assert o == Malformed;
          events := events + [OnError];
      }
    }

    /** The for loop of run() over the packets of one chunk, left at the first packet that
        ends the loop of run(). */
    method HandlePackets(packets: seq<InPacket>, weights: seq<AndWeight>) returns (weights': seq<AndWeight>, phase: Phase)
      modifies this`output, this`writesLeft, this`events
      ensures Progress(phase, weights', output, events, writesLeft)
              == ApplyAll(Progress(Reading, weights, old(output), old(events), old(writesLeft)), Outcomes(packets, floatSyntax, AsWritten))
    {
      ghost var start := Progress(Reading, weights, output, events, writesLeft);
      ghost var outcomes := Outcomes(packets, floatSyntax, AsWritten);
      weights', phase := weights, Reading;
      var j := 0;
      while j < |packets|
        invariant 0 <= j <= |packets|
        invariant phase == Reading && ApplyAll(start, outcomes[..j]) == Progress(phase, weights', output, events, writesLeft)
      {
        assert outcomes[..j + 1][..j] == outcomes[..j];
        assert outcomes[j] == Dispatch(packets[j], floatSyntax, AsWritten);
        weights', phase := HandlePacket(packets[j], weights');
        assert ApplyAll(start, outcomes[..j + 1]) == Progress(phase, weights', output, events, writesLeft);
        if phase != Reading {
          LeftLoopStaysLeft(start, outcomes, j + 1);
          return;
        }
        j := j + 1;
      }
      assert outcomes[..j] == outcomes;
    }

    /** run(): reads while connected, handles the packets of each chunk, and at the end
        hands over the weight list, closes the socket and reports the disconnection. The
        output, the events and the accepted writes are those of `Session.Run` from the
        state before the call; `crashed` tells that an exception escaped the thread. */
    method Run() returns (crashed: bool)
      requires Valid()
      modifies this
      ensures Valid()
      ensures var r := Session.Run(Progress(Reading, [], old(output), old(events), old(writesLeft)), old(incoming), floatSyntax, AsWritten);
        output == r.output && events == r.events && writesLeft == r.writesLeft && (crashed <==> r.phase == Crashed)
      ensures |incoming| <= |old(incoming)| && incoming == old(incoming)[|old(incoming)| - |incoming|..]
    {
      var buffer := new JByte[BUFFER_SIZE];
      var weights: seq<AndWeight> := [];
      var phase := Reading;

      ghost var s0 := Progress(Reading, [], output, events, writesLeft);
      ghost var all := incoming;
      ghost var k := 0;

      while incoming != [] && phase == Reading
        invariant Valid() && buffer.Length == BUFFER_SIZE
        invariant 0 <= k <= |all| && incoming == all[k..]
        invariant HandleReads(s0, all[..k], floatSyntax, AsWritten) == Progress(phase, weights, output, events, writesLeft)
        decreases |incoming|
      {
        ghost var previous := Progress(Reading, weights, output, events, writesLeft);
        var failed, bytes := Read(buffer);
        k := k + 1;
        assert all[..k][..k - 1] == all[..k - 1];
        if failed {
          // catch (IOException e): leave the loop
          phase := ReadFailed;
        } else {
          var packets := ParseStream(buffer, bytes);
          weights, phase := HandlePackets(packets, weights);
        }
      }

      if phase == Reading {
        assert all[..k] == all;
      } else {
        LeftLoopIgnoresReads(s0, all, k, floatSyntax, AsWritten);
      }

      if phase == Crashed {
        // the exception ends the thread before the session is finalised
        return true;
      }
      events := events + [OnWeightList(weights)];
      Close();
      events := events + [OnDisconnect];
      return false;
    }
  }
}
