/**
 The application data unit as a value: what a `Message` buffer holds, and
 what the two implementations of `prepareToSend` make of it.
 */
module Frames {
  import opened Bytes
  import opened CrcReference
  import opened CrcTables
  import opened CrcDetection
  import opened CrcDistance

  datatype Net = Rtu | Tcp

  /** Bytes before the PDU: the slave number, or the MBAP header of MODBUS TCP. */
  function HeaderLength(net: Net): nat {
    if net.Rtu? then 1 else 7
  }

  function MaxAduLength(net: Net): nat {
    if net.Rtu? then 256 else 260
  }

  /** Buffer, bytes in use, response flag and the message's own transaction counter. */
  datatype Adu = Adu(net: Net, bytes: seq<byte>, size: nat, response: bool, nextId: word) {

    predicate Valid() {
      size <= |bytes| <= MaxAduLength(net)
    }

    function Header(): nat {
      HeaderLength(net)
    }

    /** Whether the byte at a (possibly negative) PDU offset lies in the buffer. */
    predicate Has(offset: int) {
      0 <= Header() + offset < |bytes|
    }

    function PduSize(): nat {
      if size > Header() then size - Header() else 0
    }

    function Pdu(): (pdu: seq<byte>)
      requires Valid()
      ensures |pdu| == PduSize()
    {
      if size > Header() then bytes[Header()..size] else []
    }

    /** The bytes that go on the wire. */
    function Frame(): seq<byte>
      requires Valid()
    {
      bytes[..size]
    }

    function Byte(offset: int): byte
      requires Has(offset)
    {
      bytes[Header() + offset]
    }

    function Word(offset: int): word
      requires Has(offset) && Has(offset + 1)
    {
      Join(Byte(offset), Byte(offset + 1))
    }

    function Covering(end: nat): nat {
      if size < end then end else size
    }

    function SetByte(offset: int, value: byte): (m: Adu)
      requires Has(offset)
      ensures Valid() ==> m.Valid()
    {
      this.(bytes := bytes[Header() + offset := value], size := Covering(Header() + offset + 1))
    }

    function SetWord(offset: int, value: word): (m: Adu)
      requires Has(offset) && Has(offset + 1)
      ensures Valid() ==> m.Valid()
    {
      var i := Header() + offset;
      this.(bytes := bytes[i := High(value)][i + 1 := Low(value)], size := Covering(i + 2))
    }

    /** `setPdu` from another message, of the same or the other kind of network. */
    function SetPdu(pdu: seq<byte>): (m: Adu)
      requires Header() + |pdu| <= |bytes|
      ensures Valid() ==> m.Valid()
    {
      this.(bytes := bytes[..Header()] + pdu + bytes[Header() + |pdu|..], size := Header() + |pdu|)
    }

    /** Room for what `prepareToSend` adds. */
    predicate CanPrepare() {
      Valid() && (net.Rtu? ==> size + 2 <= |bytes|)
    }

    predicate IsRequest() {
      Valid() && net.Tcp? && !response && PduSize() >= 1
    }
  }

  /**
   A message made from the bytes of an RTU frame has a buffer of just that
   size: there never is room to prepare it as it is.
   */
  lemma FromBytesCannotPrepare(bytes: seq<byte>, nextId: word)
    ensures !Adu(Rtu, bytes, |bytes|, false, nextId).CanPrepare()
    ensures |bytes| <= MaxAduLength(Tcp) ==> Adu(Tcp, bytes, |bytes|, false, nextId).CanPrepare()
  {
  }

  /**
   Where things are: one byte, the slave, in front of a PDU on RTU, and seven,
   the MBAP header, on TCP; words are big-endian; the buffers are those of the
   two specifications.
   */
  lemma Layout(m: Adu, k: int)
    ensures m.Has(k) ==> m.Byte(k) == m.bytes[k + if m.net.Rtu? then 1 else 7]
    ensures m.Has(k) && m.Has(k + 1) ==> m.Word(k) as int == 256 * (m.Byte(k) as int) + m.Byte(k + 1) as int
    ensures m.Valid() ==> m.size <= |m.bytes| <= if m.net.Rtu? then 256 else 260
    ensures var begin := if m.net.Rtu? then 1 else 7;
            m.PduSize() == if m.size > begin then m.size - begin else 0
    ensures m.Valid() && m.net.Rtu? && m.size >= 1 ==> [m.bytes[0]] + m.Pdu() == m.Frame()
    ensures m.Valid() && m.net.Tcp? && m.size >= 7 ==> m.bytes[..7] + m.Pdu() == m.Frame()
  {
    hide Join, High, Low;
    if m.Has(k) && m.Has(k + 1) {
      JoinParts(0, m.Byte(k), m.Byte(k + 1));
      WordNumber(m.Word(k));
    }
  }

  // ----- what is written is what is read -----

  /**
   A byte written at any PDU offset, -1 for the slave number, reads back; the
   others stay, and the size is the old one or just covers the byte.
   */
  lemma SetByteReadsBack(m: Adu, offset: int, value: byte)
    requires m.Has(offset)
    ensures var m' := m.SetByte(offset, value);
            && |m'.bytes| == |m.bytes| && m' == m.(bytes := m'.bytes, size := m'.size)
            && m'.Has(offset) && m'.Byte(offset) == value
            && (forall k :: m.Has(k) && k != offset ==> m'.Byte(k) == m.Byte(k))
            && var end := offset + if m.net.Rtu? then 2 else 8;
               m'.size == if m.size < end then end else m.size
  {
  }

  lemma SetWordReadsBack(m: Adu, offset: int, value: word)
    requires m.Has(offset) && m.Has(offset + 1)
    ensures var m' := m.SetWord(offset, value);
            && m'.Has(offset) && m'.Has(offset + 1) && m'.Word(offset) == value
            && |m'.bytes| == |m.bytes| && m' == m.(bytes := m'.bytes, size := m'.size)
            && (forall k :: m.Has(k) && k != offset && k != offset + 1 ==> m'.Byte(k) == m.Byte(k))
            && var end := offset + if m.net.Rtu? then 3 else 9;
               m'.size == if m.size < end then end else m.size
  {
    hide High, Low, Join;
    JoinParts(value, 0, 0);
  }

  /** The PDU is the one given; the header and every byte behind the PDU stay. */
  lemma SetPduKeeps(m: Adu, pdu: seq<byte>)
    requires m.Header() + |pdu| <= |m.bytes| <= MaxAduLength(m.net)
    ensures var m' := m.SetPdu(pdu);
            var begin := if m.net.Rtu? then 1 else 7;
            && m'.Valid() && m'.Pdu() == pdu && m'.size == begin + |pdu|
            && m' == m.(bytes := m'.bytes, size := m'.size)
            && m'.bytes[..begin] == m.bytes[..begin]
            && m'.bytes[begin + |pdu|..] == m.bytes[begin + |pdu|..]
  {
  }

  // ----- the two encoders -----

  /** Message::prepareToSend without a backend: everything through `setWord`. */
  function PrepareAlone(m: Adu): (r: (Adu, bool))
    requires m.CanPrepare()
    ensures r.0.Valid()
  {
    if m.PduSize() < 1 then (m, false)
    else match m.net
      case Tcp =>
        var m1 := if m.response then m
                  else m.(nextId := m.nextId + 1).SetWord(-7, m.nextId).SetWord(-5, 0);
        (m1.SetWord(-3, (m1.PduSize() + 1) as word), true)
      case Rtu =>
        (m.SetWord(m.PduSize(), Crc16Of(m.Frame())), true)
  }

  /** RtuLayer::prepareToSend: two bytes stored behind the last one. */
  function PrepareByRtu(m: Adu): (r: (Adu, bool))
    requires m.CanPrepare()
    ensures r.0.Valid()
  {
    if m.net.Rtu? && m.PduSize() >= 1 then
      var crc := Crc16Of(m.Frame());
      (m.(bytes := m.bytes[m.size := High(crc)][m.size + 1 := Low(crc)], size := m.size + 2), true)
    else (m, false)
  }

  /** TcpLayer::prepareToSend: six header bytes stored one by one; `id` is the layer's counter. */
  function PrepareByTcp(m: Adu, id: word): (r: (Adu, word, bool))
    requires m.CanPrepare()
    ensures r.0.Valid()
  {
    if m.net.Tcp? && m.PduSize() >= 1 then
      var s := (m.PduSize() + 1) as word;
      var b := if m.response then m.bytes
               else m.bytes[0 := High(id)][1 := Low(id)][2 := 0][3 := 0];
      (m.(bytes := b[4 := High(s)][5 := Low(s)]), if m.response then id else id + 1, true)
    else (m, id, false)
  }

  lemma ZeroHalves()
    ensures High(0) == 0 && Low(0) == 0
  {
  }

  lemma RtuEncodersAgree(m: Adu)
    requires m.CanPrepare() && m.net.Rtu?
    ensures PrepareAlone(m) == PrepareByRtu(m)
  {
    hide High, Low, Crc16Of;
  }

  lemma TcpEncodersAgree(m: Adu)
    requires m.CanPrepare() && m.net.Tcp?
    ensures var (m', id', ok) := PrepareByTcp(m, m.nextId);
            PrepareAlone(m) == (m'.(nextId := id'), ok)
  {
    hide High, Low, Crc16Of;
    ZeroHalves();
    if m.PduSize() >= 1 && !m.response {
      IdStored(m, m.nextId);
    }
  }

  /** The first four header bytes of a request, through `setWord`. */
  lemma IdStored(m: Adu, id: word)
    requires m.Valid() && m.net.Tcp? && m.PduSize() >= 1
    ensures m.SetWord(-7, id).SetWord(-5, 0) == m.(bytes := m.bytes[0 := High(id)][1 := Low(id)][2 := 0][3 := 0])
  {
    hide High, Low;
    ZeroHalves();
  }

  /** Given the same counter, both encoders leave the same buffer, size and next id. */
  lemma EncodersAgree(m: Adu)
    requires m.CanPrepare()
    ensures m.net.Rtu? ==> PrepareAlone(m) == PrepareByRtu(m)
    ensures m.net.Tcp? ==> var (m', id', ok) := PrepareByTcp(m, m.nextId);
                           PrepareAlone(m) == (m'.(nextId := id'), ok)
  {
    hide PrepareAlone, PrepareByRtu, PrepareByTcp;
    if m.net.Rtu? {
      RtuEncodersAgree(m);
    } else {
      TcpEncodersAgree(m);
    }
  }

  /** What a prepared RTU message is: the old bytes, a matching CRC, nothing else touched. */
  lemma RtuFrameIsAccepted(m: Adu)
    requires m.CanPrepare() && m.net.Rtu? && m.PduSize() >= 1
    ensures var (m', ok) := PrepareByRtu(m);
            && ok && Accepted(m'.Frame()) && |m'.Frame()| == m.size + 2
            && m' == m.(bytes := m'.bytes, size := m.size + 2)
            && m'.Frame()[..m.size] == m.Frame()
            && m'.bytes[m.size + 2..] == m.bytes[m.size + 2..]
            && Ones(Bits(m'.Frame())) % 2 == 0
  {
    hide High, Low, Crc16Of, Accepted, Bits, Ones;
    var crc := Crc16Of(m.Frame());
    var (m', ok) := PrepareByRtu(m);
    assert m'.Frame() == m.Frame() + [High(crc), Low(crc)];
    AppendedCrcIsAccepted(m.Frame());
    AcceptedFramesAreEven(m'.Frame());
  }

  lemma HalvesOfWorkedCrc()
    ensures Low(0x8776) == 0x76 && High(0x8776) == 0x87
  {
  }

  /** A request worked out: 11 03 00 6B 00 03 leaves with 76 87 behind it, low-order half first. */
  lemma WorkedFrame(m: Adu)
    requires m.CanPrepare() && m.net.Rtu? && m.Frame() == [0x11, 0x03, 0x00, 0x6B, 0x00, 0x03]
    ensures PrepareByRtu(m).0.Frame() == [0x11, 0x03, 0x00, 0x6B, 0x00, 0x03, 0x76, 0x87]
  {
    hide High, Low, Join, Crc, Accepted;
    WorkedCrc();
    HalvesOfWorkedCrc();
    JoinParts(0, Low(0x8776), High(0x8776));
    RtuFrameIsAccepted(m);
    var m' := PrepareByRtu(m).0;
    assert m'.Frame() == m.Frame() + [m'.bytes[6], m'.bytes[7]];
  }

  /** The flipped bits all lie within sixteen consecutive places. */
  ghost predicate IsBurst(error: seq<byte>) {
    forall i, j :: 0 <= i < j < |Bits(error)| && Bits(error)[i] && Bits(error)[j] ==> j - i < 16
  }

  /**
   A frame made by `prepareToSend` and then damaged is no longer accepted,
   whether up to three bits are wrong, an odd number of them, or any number
   within sixteen consecutive places, the CRC included.
   */
  lemma DamageIsDetected(m: Adu, error: seq<byte>, k: nat)
    requires m.CanPrepare() && m.net.Rtu? && m.PduSize() >= 1
    requires |error| == m.size + 2 && k < |Bits(error)| && Bits(error)[k]
    requires 1 <= Ones(Bits(error)) <= 3 || Ones(Bits(error)) % 2 == 1 || IsBurst(error)
    ensures !Accepted(Xor(PrepareByRtu(m).0.Frame(), error))
  {
    hide Accepted, Bits, Ones, Crc16Of;
    var frame := PrepareByRtu(m).0.Frame();
    RtuFrameIsAccepted(m);
    if IsBurst(error) {
      BurstsDetected(frame, error, k);
    } else if Ones(Bits(error)) % 2 == 1 {
      OddErrorsDetected(frame, error);
    } else {
      SmallErrorsDetected(frame, error);
    }
  }

  /** What a prepared TCP message is: MBAP header filled in, unit and PDU untouched. */
  lemma TcpHeaderIsFilled(m: Adu, id: word)
    requires m.CanPrepare() && m.net.Tcp? && m.PduSize() >= 1
    ensures var (m', id', ok) := PrepareByTcp(m, id);
            && ok && m' == m.(bytes := m'.bytes) && m'.Valid()
            && |m'.bytes| == |m.bytes| && m'.bytes[6..] == m.bytes[6..]
            && m'.Word(-3) == (m.size - 6) as word
            && (if m.response then id' == id && m'.bytes[..4] == m.bytes[..4]
                else id' == id + 1 && m'.Word(-7) == id && m'.Word(-5) == 0)
  {
    hide High, Low, Join;
    JoinParts(id, 0, 0);
    JoinParts((m.size - 6) as word, 0, 0);
    JoinParts(0, 0, 0);
    ZeroHalves();
  }

  /** Without a PDU, or on the other kind of network, nothing is prepared and nothing changes. */
  lemma NothingToPrepare(m: Adu, id: word)
    requires m.CanPrepare()
    ensures m.PduSize() < 1 ==> PrepareAlone(m) == (m, false)
    ensures m.PduSize() < 1 || m.net.Tcp? ==> PrepareByRtu(m) == (m, false)
    ensures m.PduSize() < 1 || m.net.Rtu? ==> PrepareByTcp(m, id) == (m, id, false)
  {
  }

  // ----- RtuLayer::checkMessage -----

  datatype Check = Verdict(ok: bool) | DomainError | InvalidArgument

  /** `Message::crc`: it refuses frames of four bytes and more. */
  function ReadCrc(m: Adu): (r: (Check, word))
    requires m.Valid() && m.size >= 2
  {
    if !m.net.Rtu? then (DomainError, 0)
    else if m.size >= 4 then (InvalidArgument, 0)
    else (Verdict(true), m.Word(m.PduSize() - 2))
  }

  function CheckMessage(m: Adu): Check
    requires m.Valid() && m.size >= 2
  {
    var (c, crc) := ReadCrc(m);
    if c.Verdict? then Verdict(Crc16Of(m.bytes[..m.size - 2]) == crc) else c
  }

  /** It throws on TCP, and for frames of four bytes and more; otherwise the last two bytes are compared. */
  lemma CheckMessageThrows(m: Adu)
    requires m.Valid() && m.size >= 2
    ensures m.net.Tcp? ==> CheckMessage(m) == DomainError
    ensures m.net.Rtu? && m.size >= 4 ==> CheckMessage(m) == InvalidArgument
    ensures m.net.Rtu? && m.size < 4 ==>
              CheckMessage(m)
              == Verdict(Crc16Of(m.bytes[..m.size - 2]) == Join(m.bytes[m.size - 2], m.bytes[m.size - 1]))
  {
    hide Crc16Of, Join;
  }

  /** The check gives the verdict the standard asks for exactly below four bytes. */
  lemma CheckMessageIff(m: Adu)
    requires m.Valid() && m.net.Rtu? && m.size >= 2
    ensures CheckMessage(m) == Verdict(Accepted(m.Frame())) <==> m.size < 4
  {
    hide Crc16Of, Join;
    if m.size < 4 {
      var f, n := m.Frame(), m.size;
      assert f[..n - 2] == m.bytes[..n - 2];
    }
  }

  /** So every frame that `prepareToSend` makes is refused. */
  lemma PreparedFramesAreRefused(m: Adu)
    requires m.CanPrepare() && m.net.Rtu? && m.PduSize() >= 1
    ensures Accepted(PrepareByRtu(m).0.Frame())
    ensures CheckMessage(PrepareByRtu(m).0) == InvalidArgument
  {
    RtuFrameIsAccepted(m);
  }

  // ----- bridging between networks -----

  /** `Master::receiveResponse`: the received bytes, and on RTU without the CRC. */
  function Received(m: Adu, frame: seq<byte>): (r: Adu)
    requires |frame| <= |m.bytes| && (m.net.Rtu? ==> |frame| >= 2)
    ensures m.Valid() ==> r.Valid()
    ensures |r.bytes| == |m.bytes| && r.bytes[..|frame|] == frame && r.bytes[|frame|..] == m.bytes[|frame|..]
    ensures m.net.Tcp? ==> r.size == |frame|
    ensures m.net.Rtu? ==> r.size + 2 == |frame| && r.bytes[..r.size] + frame[r.size..] == frame
    ensures r == m.(bytes := r.bytes, size := r.size)
  {
    m.(bytes := frame + m.bytes[|frame|..], size := if m.net.Tcp? then |frame| else |frame| - 2)
  }

  /**
   A PDU taken from a TCP message, sent as an RTU frame, received and copied
   back into a TCP message is the same PDU.
   */
  lemma BridgeRoundTrip(request: Adu, serial: Adu, other: Adu, back: Adu)
    requires request.Valid() && serial.Valid() && other.Valid() && back.Valid()
    requires request.net.Tcp? && serial.net.Rtu? && other.net.Rtu? && back.net.Tcp?
    requires request.PduSize() >= 1
    requires request.PduSize() + 3 <= |serial.bytes| && request.PduSize() + 3 <= |other.bytes|
    requires request.PduSize() + 7 <= |back.bytes|
    ensures var sent := PrepareByRtu(serial.SetPdu(request.Pdu())).0.Frame();
            var received := Received(other, sent);
            && Accepted(sent) && |sent| == request.PduSize() + 3
            && sent[0] == serial.bytes[0] && sent[1..|sent| - 2] == request.Pdu()
            && received.Pdu() == request.Pdu() && received.bytes[0] == serial.bytes[0]
            && back.SetPdu(received.Pdu()).bytes[..7] == back.bytes[..7]
            && back.SetPdu(received.Pdu()).Pdu() == request.Pdu()
            && back.SetPdu(received.Pdu()).size == 7 + request.PduSize()
  {
    hide Accepted, Crc16Of, High, Low;
    var pdu := request.Pdu();
    var m := serial.SetPdu(pdu);
    var sent := PrepareByRtu(m).0.Frame();
    RtuFrameIsAccepted(m);
    SetPduKeeps(serial, pdu);
    SetPduKeeps(back, pdu);
    var received := Received(other, sent);
    assert sent[..m.size][1..] == m.Pdu();
    assert received.bytes[..m.size] == sent[..m.size] == m.bytes[..m.size];
    assert received.Pdu() == m.bytes[..m.size][1..] == m.Pdu() == pdu;
    assert back.SetPdu(pdu).Pdu() == pdu;
  }

  // ----- transaction identifiers -----

  function RequestCount(ms: seq<Adu>): nat {
    if ms == [] then 0
    else RequestCount(ms[..|ms| - 1]) + if ms[|ms| - 1].IsRequest() then 1 else 0
  }

  ghost predicate CanPrepareAll(ms: seq<Adu>) {
    forall i :: 0 <= i < |ms| ==> ms[i].CanPrepare()
  }

  /** The layer's counter after preparing a run of messages of any kind. */
  function NextId(id: word, ms: seq<Adu>): word
    requires CanPrepareAll(ms)
  {
    if ms == [] then id
    else PrepareByTcp(ms[|ms| - 1], NextId(id, ms[..|ms| - 1])).1
  }

  /** One more message takes one more id exactly when it is a request. */
  lemma OneRequestOneId(ms: seq<Adu>)
    requires CanPrepareAll(ms) && ms != []
    ensures var init := ms[..|ms| - 1];
            if RequestCount(ms) == RequestCount(init) then NextId(1, ms) == NextId(1, init)
            else NextId(1, ms) == NextId(1, init) + 1 && RequestCount(ms) == RequestCount(init) + 1
  {
    hide High, Low;
  }

  lemma NextRemainder(n: nat)
    ensures (n % 0x10000 + 1) % 0x10000 == (n + 1) % 0x10000
  {
  }

  lemma {:induction false} NextIdCounts(ms: seq<Adu>)
    requires CanPrepareAll(ms)
    ensures Number(NextId(1, ms)) == (1 + RequestCount(ms)) % 0x10000
  {
    hide Number, PrepareByTcp, RequestCount, NextId;
    if ms == [] {
      NoRequests();
    } else {
      var init := ms[..|ms| - 1];
      var before := NextId(1, init);
      NextIdCounts(init);
      OneRequestOneId(ms);
      if RequestCount(ms) != RequestCount(init) {
        NextWord(before);
        NextRemainder(1 + RequestCount(init));
      }
    }
  }

  lemma NoRequests()
    ensures Number(NextId(1, [])) == 1 && RequestCount([]) == 0
  {
  }

  lemma {:induction false} RequestsAppend(a: seq<Adu>, b: seq<Adu>)
    ensures RequestCount(a + b) == RequestCount(a) + RequestCount(b)
  {
    if b == [] {
      assert a + b == a;
    } else {
      var n := |b| - 1;
      assert (a + b)[..|a| + n] == a + b[..n];
      RequestsAppend(a, b[..n]);
    }
  }

  /** The message that leaves the layer at place `i` of a run. */
  function Sent(ms: seq<Adu>, i: nat): Adu
    requires CanPrepareAll(ms) && i < |ms|
  {
    PrepareByTcp(ms[i], NextId(1, ms[..i])).0
  }

  /** Over any run on one layer, the k-th request carries (1 + k) mod 65536. */
  lemma RequestIds(ms: seq<Adu>, i: nat)
    requires CanPrepareAll(ms) && i < |ms| && ms[i].IsRequest()
    ensures Number(Sent(ms, i).Word(-7)) == (1 + RequestCount(ms[..i])) % 0x10000
  {
    hide Number, High, Low, Join;
    NextIdCounts(ms[..i]);
    TcpHeaderIsFilled(ms[i], NextId(1, ms[..i]));
  }

  lemma RemaindersDiffer(a: nat, b: nat)
    requires a < b < a + 0x10000
    ensures a % 0x10000 != b % 0x10000
  {
  }

  lemma RequestsBetween(ms: seq<Adu>, i: nat, j: nat)
    requires i < j < |ms| && ms[i].IsRequest()
    ensures RequestCount(ms[..i]) < RequestCount(ms[..j]) == RequestCount(ms[..i]) + RequestCount(ms[i..j])
  {
    assert ms[..j] == ms[..i] + ms[i..j];
    RequestsAppend(ms[..i], ms[i..j]);
    FirstIsRequest(ms[i..j]);
  }

  lemma FirstIsRequest(ms: seq<Adu>)
    requires ms != [] && ms[0].IsRequest()
    ensures RequestCount(ms) >= 1
  {
    assert [ms[0]] + ms[1..] == ms;
    RequestsAppend([ms[0]], ms[1..]);
    assert RequestCount([ms[0]]) == 1 by { assert [ms[0]][..0] == []; }
  }

  /** Two requests with fewer than 65536 requests from one to the other never share an id. */
  lemma RequestIdsDiffer(ms: seq<Adu>, i: nat, j: nat)
    requires CanPrepareAll(ms) && i < j < |ms|
    requires ms[i].IsRequest() && ms[j].IsRequest()
    requires RequestCount(ms[i..j]) < 0x10000
    ensures Sent(ms, i).Word(-7) != Sent(ms, j).Word(-7)
  {
    hide Number, Join, High, Low, PrepareByTcp, NextId, Sent, RequestCount;
    RequestIds(ms, i);
    RequestIds(ms, j);
    RequestsBetween(ms, i, j);
    RemaindersDiffer(1 + RequestCount(ms[..i]), 1 + RequestCount(ms[..j]));
  }

  // ----- responses -----

  datatype Edit = PutByte(offset: nat, b: byte) | PutWord(offset: nat, w: word)

  predicate EditFits(m: Adu, e: Edit) {
    m.Has(e.offset) && (e.PutWord? ==> m.Has(e.offset + 1))
  }

  function Edited(m: Adu, e: Edit): (r: Adu)
    requires EditFits(m, e)
    ensures r.net == m.net && |r.bytes| == |m.bytes| && r.response == m.response
    ensures m.Valid() ==> r.Valid()
  {
    match e
    case PutByte(offset, b) => m.SetByte(offset, b)
    case PutWord(offset, w) => m.SetWord(offset, w)
  }

  ghost predicate EditsFit(m: Adu, es: seq<Edit>) {
    forall i :: 0 <= i < |es| ==> EditFits(m, es[i])
  }

  function EditedAll(m: Adu, es: seq<Edit>): (r: Adu)
    requires EditsFit(m, es)
    ensures r.net == m.net && |r.bytes| == |m.bytes| && r.response == m.response
    ensures m.Valid() ==> r.Valid()
    decreases |es|
  {
    if es == [] then m else Edited(EditedAll(m, es[..|es| - 1]), es[|es| - 1])
  }

  lemma {:induction false} EditsKeepHeader(m: Adu, es: seq<Edit>)
    requires EditsFit(m, es) && m.Header() <= |m.bytes|
    ensures forall k :: 0 <= k < m.Header() ==> EditedAll(m, es).bytes[k] == m.bytes[k]
    ensures EditedAll(m, es).size >= m.size
    decreases |es|
  {
    hide High, Low;
    if es == [] {
    } else {
      EditsKeepHeader(m, es[..|es| - 1]);
    }
  }

  /**
   A response made from a request and edited at PDU offsets only, any number
   of times, leaves with the request's transaction identifier and slave
   number, and does not use up an id of the layer.
   */
  lemma ResponseKeepsId(request: Adu, es: seq<Edit>, id: word)
    requires request.Valid() && request.net.Tcp? && request.PduSize() >= 1
    requires EditsFit(request, es)
    ensures var (m', id', ok) := PrepareByTcp(EditedAll(request.(response := true), es), id);
            && ok && id' == id && m'.Valid() && m'.Has(-7)
            && m'.Word(-7) == request.Word(-7) && m'.Word(-5) == request.Word(-5)
            && m'.Byte(-1) == request.Byte(-1)
            && m'.Word(-3) == (m'.size - 6) as word
  {
    hide High, Low, Join, PrepareByTcp;
    var m := request.(response := true);
    forall i | 0 <= i < |es|
      ensures EditFits(m, es[i])
    {
      assert EditFits(request, es[i]);
    }
    EditsKeepHeader(m, es);
    PreparedResponseKeepsHeader(EditedAll(m, es), id);
  }

  lemma PreparedResponseKeepsHeader(m: Adu, id: word)
    requires m.Valid() && m.net.Tcp? && m.response && m.PduSize() >= 1
    ensures var (m', id', ok) := PrepareByTcp(m, id);
            && ok && id' == id && m'.Valid() && m'.Has(-7)
            && m'.Word(-7) == m.Word(-7) && m'.Word(-5) == m.Word(-5)
            && m'.Byte(-1) == m.Byte(-1)
            && m'.Word(-3) == (m'.size - 6) as word
  {
    hide High, Low, Join;
    JoinParts((m.size - 6) as word, 0, 0);
  }
}
