/** The MQTT client's state machine: every public operation claims the client by a compare-and-set on
    its state and gives it back at the end, while messages that arrive meanwhile run application
    callbacks, which may call any operation again. The network, the timers and the application are a
    tape of choices; every finite run is the run of some tape. */
module MqttClient {
  datatype ClientState =
    | Invalid | Initialized | Connecting
    | Idle | YieldInProgress | PublishInProgress | SubscribeInProgress
    | UnsubscribeInProgress | ResubscribeInProgress | WaitForCallbackReturn
    | Disconnecting | DisconnectedError | DisconnectedManually | PendingReconnect

  datatype Code =
    | Success | Failure | Disconnected | AttemptingReconnect | Reconnected | ReconnectTimedOut
    | ManuallyDisconnected | AlreadyConnected | NotIdle | UnexpectedState | RequestTimeout | PacketTypeInvalid
    | PhysicalLayerConnected | PhysicalLayerDisconnected | Other(code: nat)

  /** Any code, other than success, that a transport function may return. */
  function TransportCode(n: nat): Code {
    match n
    case 0 => Failure
    case 1 => Disconnected
    case 2 => AttemptingReconnect
    case 3 => Reconnected
    case 4 => ReconnectTimedOut
    case 5 => ManuallyDisconnected
    case 6 => AlreadyConnected
    case 7 => NotIdle
    case 8 => UnexpectedState
    case 9 => RequestTimeout
    case 10 => PacketTypeInvalid
    case 11 => PhysicalLayerConnected
    case 12 => PhysicalLayerDisconnected
    case _ => Other(n)
  }

  datatype Packet = Connack | Publish | Puback | Suback | Unsuback | Pingresp | Ignored | Unknown

  function PacketOf(n: nat): Packet {
    match n
    case 0 => Unknown
    case 1 => Connack
    case 2 => Publish
    case 3 => Puback
    case 4 => Suback
    case 5 => Unsuback
    case 6 => Pingresp
    case _ => Ignored
  }

  /** Whether reconnecting was enabled when the connection was given up, if it was. */
  datatype Drop = NoDrop | Dropped(enabled: bool)

  predicate IsConnected(s: ClientState) {
    match s
    case Idle | YieldInProgress | PublishInProgress | SubscribeInProgress | UnsubscribeInProgress
       | ResubscribeInProgress | WaitForCallbackReturn => true
    case _ => false
  }

  predicate ValidForConnect(s: ClientState) {
    s == Initialized || s == DisconnectedError || s == DisconnectedManually || s == PendingReconnect
  }

  /** No operation is under way. */
  predicate AtRest(s: ClientState) {
    s == Idle || ValidForConnect(s)
  }

  /** The two codes on which yield leaves the state alone. */
  predicate Lost(c: Code) {
    c == Disconnected || c == AttemptingReconnect
  }

  /** The choices begin with time to run and a transport read that returns a lost code. */
  predicate ReadLostAtOnce(tape: seq<nat>) {
    |tape| >= 3 && tape[0] != 0 && tape[1] >= 2 && Lost(TransportCode(tape[2]))
  }

  /** The choices begin with nothing to read and a ping that is due. */
  predicate PingDue(tape: seq<nat>) {
    |tape| >= 2 && tape[0] == 0 && tape[1] != 0
  }

  class Client {
    const minWait: nat
    const maxWait: nat
    var state: ClientState
    var pingOutstanding: bool
    var autoReconnect: bool
    var keepAlive: nat
    var waitInterval: nat
    var tape: seq<nat>

    /** Successful disconnects that message callbacks have made. */
    ghost var manual: nat
    /** The latest transport read, since the yield began or the connection was last given up, was made in
        yield's own state and returned a lost code. */
    ghost var lost: bool
    /** Some transport read has been like that. */
    ghost var faulty: bool
    /** The packets that the transport has delivered. */
    ghost var arrivals: seq<Packet>
    /** The latest giving up of the connection since the latest yield began. */
    ghost var drop: Drop

    constructor (minWait: nat, maxWait: nat, autoReconnect: bool, tape: seq<nat>)
      ensures state == Initialized && !lost && !faulty && manual == 0
    {
      this.minWait, this.maxWait, this.autoReconnect, this.tape := minWait, maxWait, autoReconnect, tape;
      state, pingOutstanding, keepAlive, waitInterval := Initialized, false, 0, 0;
      manual, lost, faulty, arrivals, drop := 0, false, false, [], NoDrop;
    }

    // ----- the environment

    method Draw() returns (n: nat)
      modifies this`tape
      ensures |tape| <= old(|tape|) && (n != 0 ==> |tape| < old(|tape|))
      ensures old(tape) != [] ==> n == old(tape)[0] && tape == old(tape)[1..]
    {
      n := 0;
      if tape != [] {
        n := tape[0];
        tape := tape[1..];
      }
    }

    method Flip() returns (yes: bool)
      modifies this`tape
      ensures |tape| <= old(|tape|) && (yes ==> |tape| < old(|tape|))
      ensures old(tape) != [] ==> (yes <==> old(tape)[0] != 0) && tape == old(tape)[1..]
    {
      var n := Draw();
      yes := n != 0;
    }

    /** Serialising or deserialising a packet, or sending one: succeeds or fails. */
    method TryIo() returns (rc: Code)
      modifies this`tape
      ensures |tape| <= old(|tape|) && (rc == Success || rc == Failure)
    {
      var ok := Flip();
      rc := if ok then Success else Failure;
    }

    /** Reads a packet: nothing there, a packet, or any error. */
    method ReadPacket() returns (nothing: bool, rc: Code, packet: Packet)
      modifies this`tape, this`lost, this`faulty, this`arrivals
      ensures |tape| <= old(|tape|) && (rc == Success && !nothing ==> |tape| < old(|tape|))
      ensures nothing ==> rc == Success && packet == Unknown
      ensures lost <==> state == YieldInProgress && Lost(rc)
      ensures faulty <==> old(faulty) || lost
      ensures |old(tape)| >= 2 && old(tape)[0] >= 2 ==> rc == TransportCode(old(tape)[1])
      ensures arrivals == if rc == Success && !nothing then old(arrivals) + [packet] else old(arrivals)
      ensures old(tape) != [] && old(tape)[0] == 0 ==> nothing && tape == old(tape)[1..]
    {
      nothing, rc, packet := false, Success, Unknown;
      var kind := Draw();
      if kind == 0 {
        nothing := true;
      } else {
        var n := Draw();
        if kind == 1 {
          packet := PacketOf(n);
          arrivals := arrivals + [packet];
        } else {
          rc := TransportCode(n);
        }
      }
      lost := state == YieldInProgress && Lost(rc);
      faulty := faulty || lost;
    }

    /** What every operation leaves behind, whatever the callbacks and the network did: choices used
        up, and a state that is the one it found or a resting one. */
    twostate predicate Settled()
      reads this
    {
      Onward() && (faulty || state == old(state) || AtRest(state))
    }

    /** Time goes on: choices are used up, and what has happened stays. */
    twostate predicate Onward()
      reads this
    {
      |tape| <= old(|tape|) && manual >= old(manual) && (old(faulty) ==> faulty) && |arrivals| >= old(|arrivals|)
    }

    /** The latest packet has arrived meanwhile and is this one. */
    twostate predicate Arrived(p: Packet)
      reads this
    {
      |arrivals| > old(|arrivals|) && arrivals[|arrivals| - 1] == p
    }

    /** No message callback has disconnected. */
    twostate predicate Quiet()
      reads this
    {
      manual == old(manual)
    }

    /** The state is as found, and no lost read in yield's own state is the latest; the time to wait
        before reconnecting is untouched. */
    twostate predicate Restored()
      reads this
    {
      state == old(state) && (lost ==> old(lost)) && waitInterval == old(waitInterval) && drop == old(drop)
    }

    // ----- the state

    method SetState(expected: ClientState, next: ClientState) returns (rc: Code)
      modifies this`state
      ensures rc == Success <==> old(state) == expected
      ensures state == if old(state) == expected then next else old(state)
      ensures rc == Success || rc == UnexpectedState
    {
      if state == expected {
        state := next;
        rc := Success;
      } else {
        rc := UnexpectedState;
      }
    }

    // ----- incoming messages

    /** Runs the handlers whose filter matches; the client waits for their return meanwhile. */
    method DeliverMessage() returns (rc: Code)
      modifies this
      ensures Settled()
      ensures Quiet() ==> Restored() && rc == Success
      ensures rc == Success || rc == UnexpectedState
      decreases |tape|, 3
    {
      var clientState := state;
      rc := SetState(clientState, WaitForCallbackReturn);
      var more := Flip();
      while more
        invariant Onward()
        invariant more ==> |tape| < old(|tape|)
        invariant faulty || state == WaitForCallbackReturn || AtRest(state)
        invariant Quiet() ==>
          && state == WaitForCallbackReturn && (lost ==> old(lost))
          && waitInterval == old(waitInterval) && drop == old(drop)
        decreases |tape|, more
      {
        Application(true);
        more := Flip();
      }
      rc := SetState(WaitForCallbackReturn, clientState);
    }

    /** The application in a callback: any operations, in any order. Disconnects are counted in
        message callbacks, not in the disconnect handler. */
    method Application(inMessage: bool)
      modifies this
      ensures Settled()
      ensures Quiet() && old(state) == WaitForCallbackReturn && inMessage ==> Restored()
      decreases |tape|, 0
    {
      var call := Draw();
      while call != 0
        invariant Settled()
        invariant call != 0 ==> |tape| < old(|tape|)
        invariant Quiet() && old(state) == WaitForCallbackReturn && inMessage ==> Restored()
        decreases |tape|, call
      {
        ApiCall(call, inMessage);
        call := Draw();
      }
    }

    /** Any one public operation. */
    method ApiCall(call: nat, inMessage: bool)
      modifies this
      ensures Settled()
      ensures Quiet() && old(state) == WaitForCallbackReturn && inMessage ==> Restored()
      decreases |tape|, 20
    {
      var rc;
      match call {
        case 1 =>
          var qos1 := Flip();
          rc := PublishMessage(qos1);
        case 2 => rc := Subscribe();
        case 3 => rc := Unsubscribe();
        case 4 => rc := Yield();
        case 5 => rc := Resubscribe();
        case 6 => rc := Connect();
        case 7 => rc := AttemptReconnect();
        case 8 =>
          rc := Disconnect();
          if rc == Success && inMessage { manual := manual + 1; }
        case _ => autoReconnect := !autoReconnect;
      }
    }

    /** A PUBLISH has arrived. */
    method HandlePublish() returns (rc: Code)
      modifies this
      ensures Settled()
      ensures Quiet() ==> Restored()
      ensures !Lost(rc)
      decreases |tape|, 4
    {
      rc := TryIo();
      if rc != Success {
        return;
      }
      rc := DeliverMessage();
      if rc != Success {
        return;
      }
      var qos0 := Flip();
      if qos0 {
        return Success;
      }
      rc := TryIo();
      if rc != Success {
        return;
      }
      rc := TryIo();
    }

    method CycleRead() returns (rc: Code, packet: Packet)
      modifies this
      ensures Settled()
      ensures Quiet() ==> state == old(state) && (lost <==> state == YieldInProgress && Lost(rc))
      ensures Quiet() ==> waitInterval == old(waitInterval) && drop == old(drop)
      ensures packet == Pingresp && rc == Success ==> !pingOutstanding
      ensures rc == Success && packet != Unknown && packet != Publish ==> Arrived(packet)
      ensures packet == Unknown && rc == Success ==> arrivals == old(arrivals)
      ensures old(tape) != [] && old(tape)[0] == 0 ==>
        rc == Success && tape == old(tape)[1..] && unchanged(this`state, this`keepAlive, this`pingOutstanding)
      ensures Lost(rc) && old(state) == YieldInProgress ==> faulty
      ensures |old(tape)| >= 2 && old(tape)[0] >= 2 && Lost(TransportCode(old(tape)[1])) ==>
        state == old(state) && rc == TransportCode(old(tape)[1])
      decreases |tape|, 5
    {
      var nothing;
      nothing, rc, packet := ReadPacket();
      if nothing {
        return Success, packet;
      } else if rc != Success {
        return;
      }
      match packet {
        case Connack | Puback | Suback | Unsuback | Ignored =>
        case Publish =>
          rc := HandlePublish();
        case Pingresp =>
          pingOutstanding := false;
        case Unknown =>
          rc := PacketTypeInvalid;
      }
    }

    /** Waits for the acknowledgement; success means that it has arrived. */
    method WaitForRead(expected: Packet) returns (rc: Code)
      requires expected != Unknown && expected != Publish
      modifies this
      ensures Settled()
      ensures Quiet() && old(state) != YieldInProgress ==> Restored()
      ensures rc == Success ==> Arrived(expected)
      decreases |tape|, 6
    {
      var packet := Unknown;
      while true
        invariant Settled()
        invariant Quiet() && old(state) != YieldInProgress ==> Restored()
        decreases |tape|
      {
        var running := Flip();
        if !running {
          rc := RequestTimeout;
          break;
        }
        rc, packet := CycleRead();
        if rc == Disconnected || packet == expected {
          break;
        }
      }
      if rc != RequestTimeout && rc != Disconnected && packet != expected {
        rc := Failure;
      }
    }

    // ----- the public operations

    /** Sends a request and waits for its acknowledgement. */
    method Request(ack: Packet, wait: bool) returns (rc: Code)
      requires ack != Unknown && ack != Publish
      modifies this
      ensures Settled()
      ensures Quiet() && old(state) != YieldInProgress ==> Restored()
      ensures rc == Success && wait ==> Arrived(ack)
      decreases |tape|, 7
    {
      rc := TryIo();
      if rc != Success {
        return;
      }
      rc := TryIo();
      if rc != Success {
        return;
      }
      if wait {
        rc := WaitForRead(ack);
        if rc != Success {
          return;
        }
        rc := TryIo();
      }
    }

    /** Publishes; at quality of service 1 waits for the acknowledgement. */
    method PublishMessage(qos1: bool) returns (rc: Code)
      modifies this
      ensures Settled()
      ensures Quiet() ==> Restored()
      ensures rc == Success && qos1 ==> Arrived(Puback)
      ensures !IsConnected(old(state)) ==> rc == Disconnected
      ensures IsConnected(old(state)) && old(state) != Idle && old(state) != WaitForCallbackReturn ==> rc == NotIdle
      decreases |tape|, 8
    {
      if !IsConnected(state) {
        return Disconnected;
      }
      var clientState := state;
      if clientState != Idle && clientState != WaitForCallbackReturn {
        return NotIdle;
      }
      rc := SetState(clientState, PublishInProgress);
      if rc != Success {
        return;
      }
      rc := Request(Puback, qos1);
      var setRc := SetState(PublishInProgress, clientState);
      if rc == Success && setRc != Success {
        rc := setRc;
      }
    }

    method Subscribe() returns (rc: Code)
      modifies this
      ensures Settled()
      ensures Quiet() ==> Restored()
      ensures rc == Success ==> Arrived(Suback)
      ensures !IsConnected(old(state)) ==> rc == Disconnected
      ensures IsConnected(old(state)) && old(state) != Idle && old(state) != WaitForCallbackReturn ==> rc == NotIdle
      decreases |tape|, 8
    {
      if !IsConnected(state) {
        return Disconnected;
      }
      var clientState := state;
      if clientState != Idle && clientState != WaitForCallbackReturn {
        return NotIdle;
      }
      rc := SetState(clientState, SubscribeInProgress);
      if rc != Success {
        return;
      }
      rc := TryIo();
      if rc == Success {
        rc := Request(Suback, true);
      }
      var setRc := SetState(SubscribeInProgress, clientState);
      if rc == Success && setRc != Success {
        rc := setRc;
      }
    }

    method Unsubscribe() returns (rc: Code)
      modifies this
      ensures Settled()
      ensures Quiet() ==> Restored()
      ensures rc == Success ==> Arrived(Unsuback)
      ensures !IsConnected(old(state)) ==> rc == Disconnected
      ensures IsConnected(old(state)) && old(state) != Idle && old(state) != WaitForCallbackReturn ==> rc == NotIdle
      decreases |tape|, 8
    {
      if !IsConnected(state) {
        return Disconnected;
      }
      var clientState := state;
      if clientState != Idle && clientState != WaitForCallbackReturn {
        return NotIdle;
      }
      rc := SetState(clientState, UnsubscribeInProgress);
      if rc != Success {
        return;
      }
      rc := TryIo();
      if rc == Success {
        rc := Request(Unsuback, true);
      }
      var setRc := SetState(UnsubscribeInProgress, clientState);
      if rc == Success && setRc != Success {
        rc := setRc;
      }
    }

    /** Subscribes again to everything in the handler table. */
    method Resubscribe() returns (rc: Code)
      modifies this
      ensures Settled()
      ensures Quiet() ==> Restored()
      ensures !IsConnected(old(state)) ==> rc == Disconnected
      ensures IsConnected(old(state)) && old(state) != Idle ==> rc == NotIdle
      decreases |tape|, 8
    {
      if !IsConnected(state) {
        return Disconnected;
      }
      if state != Idle {
        return NotIdle;
      }
      rc := SetState(Idle, ResubscribeInProgress);
      if rc != Success {
        return;
      }
      var more := Flip();
      while more
        invariant Onward()
        invariant more ==> |tape| < old(|tape|)
        invariant faulty || state == ResubscribeInProgress || AtRest(state)
        invariant Quiet() ==>
          && state == ResubscribeInProgress && (lost ==> old(lost))
          && waitInterval == old(waitInterval) && drop == old(drop)
        decreases |tape|, more
      {
        rc := Request(Suback, true);
        if rc != Success {
          break;
        }
        more := Flip();
      }
      var setRc := SetState(ResubscribeInProgress, Idle);
      if rc == Success && setRc != Success {
        rc := setRc;
      }
    }

    method Connect() returns (rc: Code)
      modifies this
      ensures Settled()
      ensures !ValidForConnect(old(state)) ==> rc == AlreadyConnected && Restored() && Quiet()
      ensures ValidForConnect(old(state)) && Quiet() ==>
        && state == (if rc == Success then Idle else DisconnectedError) && (lost ==> old(lost))
        && waitInterval == old(waitInterval) && drop == old(drop)
      ensures ValidForConnect(old(state)) && rc == Success ==> !pingOutstanding && Arrived(Connack)
      decreases |tape|, 8
    {
      if !ValidForConnect(state) {
        return AlreadyConnected;
      }
      var setRc := SetState(state, Connecting);
      rc := TryIo();
      if rc == Success {
        keepAlive := Draw();
        rc := Request(Connack, true);
        if rc == Success {
          // the server may still refuse
          rc := TryIo();
        }
        if rc == Success {
          pingOutstanding := false;
        }
      }
      if rc != Success {
        setRc := SetState(Connecting, DisconnectedError);
      } else {
        setRc := SetState(Connecting, Idle);
      }
    }

    /** Sends DISCONNECT and closes the connection; no message is received meanwhile. */
    method Disconnect() returns (rc: Code)
      modifies this`state, this`tape
      ensures |tape| <= old(|tape|)
      ensures rc == Success ==> IsConnected(old(state)) && state == DisconnectedManually
      ensures rc != Success ==> state == old(state)
      ensures rc == Disconnected <==> !IsConnected(old(state))
      decreases |tape|, 1
    {
      var clientState := state;
      if !IsConnected(state) {
        return Disconnected;
      }
      rc := SetState(clientState, Disconnecting);
      if rc != Success {
        return;
      }
      rc := TryIo();
      if rc == Success {
        rc := TryIo();
      }
      if rc == Success {
        rc := TryIo();
      }
      if rc != Success {
        state := clientState;
      } else {
        state := DisconnectedManually;
      }
    }

    method AttemptReconnect() returns (rc: Code)
      modifies this
      ensures Settled()
      ensures IsConnected(old(state)) ==> rc == AlreadyConnected && Restored() && Quiet()
      ensures ValidForConnect(old(state)) && Quiet() ==>
        && (state == Idle || state == PendingReconnect) && (lost ==> old(lost))
        && waitInterval == old(waitInterval) && drop == old(drop)
      ensures rc == Reconnected ==> AtRest(state) || faulty
      ensures rc == Reconnected && ValidForConnect(old(state)) && Quiet() ==> state == Idle
      decreases |tape|, 9
    {
      if IsConnected(state) {
        return AlreadyConnected;
      }
      rc := Connect();
      if state != Idle {
        var setRc := SetState(DisconnectedError, PendingReconnect);
        return AttemptingReconnect;
      }
      rc := Resubscribe();
      if rc != Success {
        return;
      }
      return Reconnected;
    }

    /** The connection is given up: DISCONNECT if possible, then the application's handler. */
    method HandleDisconnect() returns (rc: Code)
      modifies this
      ensures Onward()
      ensures state == DisconnectedError && rc == Disconnected && !lost
      decreases |tape|, 11
    {
      rc := Disconnect();
      if rc != Success {
        state := DisconnectedError;
      }
      var handler := Flip();
      if handler {
        Application(false);
      }
      state := DisconnectedError;
      lost := false;
      return Disconnected;
    }

    method HandleReconnect() returns (rc: Code)
      requires state == PendingReconnect
      modifies this
      ensures Onward()
      ensures faulty || AtRest(state) || (state == YieldInProgress && rc == Reconnected)
      ensures Quiet() ==>
        && (state == Idle || state == PendingReconnect || (state == YieldInProgress && rc == Reconnected))
        && (lost ==> old(lost)) && drop == old(drop)
      ensures old(tape) != [] && old(tape)[0] == 0 ==> rc == AttemptingReconnect && Restored()
      ensures Quiet() && old(tape) != [] && old(tape)[0] != 0 ==>
        waitInterval == if state == YieldInProgress then old(waitInterval) else 2 * old(waitInterval)
      ensures Quiet() && old(tape) != [] && old(tape)[0] != 0 && state != YieldInProgress && maxWait < waitInterval ==>
        rc == ReconnectTimedOut
      decreases |tape|, 11
    {
      var expired := Flip();
      if !expired {
        return AttemptingReconnect;
      }
      var n := Draw();
      rc := if n == 0 then PhysicalLayerDisconnected else if n == 1 then Success else TransportCode(n - 2);
      if rc == PhysicalLayerConnected {
        rc := AttemptReconnect();
        if rc == Reconnected {
          rc := SetState(Idle, YieldInProgress);
          if rc != Success {
            return;
          }
          return Reconnected;
        }
      }
      waitInterval := 2 * waitInterval;
      if maxWait < waitInterval {
        return ReconnectTimedOut;
      }
    }

    method KeepAlive() returns (rc: Code)
      modifies this
      ensures Onward()
      ensures rc == Disconnected ==> state == DisconnectedError && !lost
      ensures rc != Disconnected ==>
        state == old(state) && lost == old(lost) && faulty == old(faulty) && drop == old(drop)
      ensures old(keepAlive) == 0 ==> rc == Success && Quiet() && tape == old(tape)
      ensures rc == Disconnected || rc == Success || rc == Failure
      ensures keepAlive != 0 && old(tape) != [] && old(tape)[0] != 0 && rc == Success ==> pingOutstanding
      ensures old(keepAlive) != 0 && old(pingOutstanding) && old(tape) != [] && old(tape)[0] != 0 ==> rc == Disconnected
      decreases |tape|, 12
    {
      if keepAlive == 0 {
        return Success;
      }
      var expired := Flip();
      if !expired {
        return Success;
      }
      if pingOutstanding {
        rc := HandleDisconnect();
        return;
      }
      rc := TryIo();
      if rc != Success {
        return;
      }
      rc := TryIo();
      if rc != Success {
        rc := HandleDisconnect();
        return;
      }
      pingOutstanding := true;
    }

    /** One pass of the yield loop with a connection: read, keep alive, and start reconnecting. If the
        connection is given up, the pass goes on to wait for a reconnect exactly if that is enabled then. */
    method YieldPass() returns (rc: Code, stop: bool, ghost gaveUp: bool)
      requires state != PendingReconnect && (faulty || state == YieldInProgress || AtRest(state))
      modifies this
      ensures Onward()
      ensures faulty || AtRest(state) || (state == YieldInProgress && !Lost(rc))
      ensures Quiet() && !gaveUp ==>
        && state == old(state) && drop == old(drop) && (lost <==> state == YieldInProgress && Lost(rc))
        && (!stop ==> !lost && rc == Success)
      ensures gaveUp ==> !lost && drop == Dropped(autoReconnect)
      ensures gaveUp && autoReconnect ==>
        !stop && rc == AttemptingReconnect && state == PendingReconnect && waitInterval == minWait
      ensures gaveUp && !autoReconnect ==> stop && rc == Disconnected && state == DisconnectedError
      ensures |old(tape)| >= 2 && old(tape)[0] >= 2 && Lost(TransportCode(old(tape)[1])) ==>
        stop && state == old(state) && Lost(rc)
      ensures PingDue(old(tape)) && old(keepAlive) != 0 && old(pingOutstanding) ==> gaveUp
      decreases |tape|, 13
    {
      var packet;
      gaveUp := false;
      rc, packet := CycleRead();
      if rc != Success {
        return rc, true, false;
      }
      rc := KeepAlive();
      if rc == Disconnected {
        gaveUp := true;
        drop := Dropped(autoReconnect);
        if !autoReconnect {
          return rc, true, true;
        }
        rc := SetState(DisconnectedError, PendingReconnect);
        if rc != Success {
          return rc, true, true;
        }
        waitInterval := minWait;
        return AttemptingReconnect, false, true;
      }
      stop := rc != Success;
    }

    method InternalYield() returns (rc: Code)
      requires state == YieldInProgress || state == PendingReconnect
      modifies this
      ensures Onward()
      ensures faulty || AtRest(state) || (state == YieldInProgress && !Lost(rc))
      ensures Quiet() ==>
        && state in {YieldInProgress, PendingReconnect, Idle, DisconnectedError}
        && (lost <==> state == YieldInProgress && Lost(rc))
        && (old(state) == YieldInProgress && state == PendingReconnect ==> drop == Dropped(true))
        && (state == DisconnectedError ==> drop == Dropped(false) && rc == Disconnected)
      ensures old(state) == YieldInProgress && ReadLostAtOnce(old(tape)) ==> state == YieldInProgress && Lost(rc)
      ensures old(state) == PendingReconnect && maxWait < old(waitInterval) && old(tape) != [] && old(tape)[0] != 0 ==>
        rc == ReconnectTimedOut && state == PendingReconnect
      decreases |tape|, 14
    {
      rc := Success;
      lost := false;
      drop := NoDrop;
      ghost var first := true;
      var running := Flip();
      while running
        invariant Onward()
        invariant running ==> |tape| < old(|tape|)
        invariant faulty || AtRest(state) || (state == YieldInProgress && !Lost(rc))
        invariant Quiet() ==>
          && state in {YieldInProgress, PendingReconnect, Idle}
          && !lost && (state == YieldInProgress ==> !Lost(rc))
          && (old(state) == YieldInProgress && state == PendingReconnect ==> drop == Dropped(true))
        invariant first ==> waitInterval == old(waitInterval)
        invariant first && old(tape) != [] ==>
          state == old(state) && tape == old(tape)[1..] && (running <==> old(tape)[0] != 0)
        invariant old(state) == YieldInProgress && ReadLostAtOnce(old(tape)) ==> first
        invariant old(state) == PendingReconnect && maxWait < old(waitInterval) ==> first
        decreases |tape|, running
      {
        if state == PendingReconnect {
          if maxWait < waitInterval {
            rc := ReconnectTimedOut;
            break;
          }
          rc := HandleReconnect();
        } else {
          var stop;
          ghost var gaveUp;
          rc, stop, gaveUp := YieldPass();
          if stop {
            break;
          }
        }
        running := Flip();
        first := false;
      }
    }

    /** Gives the client time. Unless a message callback disconnects, a yield that gets to run ends
        idle, waiting to reconnect or disconnected, except exactly when its last transport read, made
        in yield's own state, returned a lost code: then the state is stuck where yield put it. An idle
        client is left waiting to reconnect only if that was enabled when the connection was given up, and
        a client is left disconnected only if it was not. */
    method Yield() returns (rc: Code)
      modifies this
      ensures Settled()
      ensures old(state) != Idle && old(state) != PendingReconnect ==> Restored() && Quiet()
      ensures (old(state) == Idle || old(state) == PendingReconnect) && Quiet() ==>
        if lost then state == YieldInProgress && Lost(rc) else state in {Idle, PendingReconnect, DisconnectedError}
      ensures (old(state) == Idle || old(state) == PendingReconnect) && Quiet() && rc == Success ==> state == Idle
      ensures old(state) == Idle && Quiet() && state == PendingReconnect ==> drop == Dropped(true)
      ensures (old(state) == Idle || old(state) == PendingReconnect) && Quiet() && state == DisconnectedError ==>
        drop == Dropped(false) && rc == Disconnected
      ensures old(state) == Idle && ReadLostAtOnce(old(tape)) ==> state == YieldInProgress
      ensures old(state) == PendingReconnect && maxWait < old(waitInterval) && old(tape) != [] && old(tape)[0] != 0 ==>
        rc == ReconnectTimedOut && state == PendingReconnect
      decreases |tape|, 15
    {
      if state == DisconnectedManually {
        return ManuallyDisconnected;
      }
      if state != PendingReconnect {
        if !IsConnected(state) {
          return Disconnected;
        }
        if state != Idle {
          return NotIdle;
        }
        rc := SetState(Idle, YieldInProgress);
        if rc != Success {
          return;
        }
      }
      rc := InternalYield();
      if rc != Disconnected && rc != AttemptingReconnect {
        var setRc := SetState(YieldInProgress, Idle);
        if rc == Success && setRc != Success {
          rc := setRc;
        }
      }
    }

    /** A whole session: any operations, called outside callbacks, with any callbacks inside them.
        Between operations the client is at rest, for every transport that never returns a lost code
        to yield. */
    method Session()
      requires state == Initialized && !faulty
      modifies this
      ensures faulty || AtRest(state)
    {
      var call := Draw();
      while call != 0
        invariant faulty || AtRest(state)
        decreases |tape|, call
      {
        ApiCall(call, false);
        call := Draw();
      }
    }
  }
}
