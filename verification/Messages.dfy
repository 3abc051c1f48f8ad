/**
 The message buffer and the two network layers as the source has them:
 objects that change an ADU in place. `View` is the buffer as a value.
 */
module Messages {
  import opened Bytes
  import opened CrcTables
  import opened Frames

  const MODBUS_TCP_SLAVE: byte := 0xFF

  datatype Backend = NoBackend | RtuBackend(rtu: RtuLayer) | TcpBackend(tcp: TcpLayer)

  class Message {
    const net: Net
    const pduBegin: nat
    const adu: array<byte>
    const backend: Backend
    var aduSize: nat
    var isResponse: bool
    var transactionId: word

    ghost predicate Valid()
      reads this
    {
      pduBegin == HeaderLength(net) && aduSize <= adu.Length <= MaxAduLength(net)
    }

    function View(): Adu
      reads this, adu
    {
      Adu(net, adu[..], aduSize, isResponse, transactionId)
    }

    /** An empty message: a buffer of zeros, on TCP with the default unit number. */
    constructor (net: Net, backend: Backend)
      ensures Valid() && fresh(adu) && this.net == net && this.backend == backend
      ensures adu.Length == (if net.Rtu? then 256 else 260) && aduSize == 0 && !isResponse && transactionId == 1
      ensures forall k :: 0 <= k < adu.Length ==>
                adu[k] == if net.Tcp? && k == 6 then 0xFF else 0
    {
      this.net, this.backend := net, backend;
      this.pduBegin := HeaderLength(net);
      this.adu := new byte[MaxAduLength(net)](_ => 0);
      this.aduSize, this.isResponse, this.transactionId := 0, false, 1;
      new;
      if net.Tcp? {
        adu[6] := MODBUS_TCP_SLAVE;
      }
    }

    /** A message that starts as a given ADU. */
    constructor FromBytes(net: Net, backend: Backend, bytes: seq<byte>)
      requires |bytes| <= MaxAduLength(net)
      ensures Valid() && fresh(adu) && this.backend == backend
      ensures View() == Adu(net, bytes, |bytes|, false, 1)
    {
      this.net, this.backend := net, backend;
      this.pduBegin := HeaderLength(net);
      this.adu := new byte[|bytes|](k requires 0 <= k < |bytes| => bytes[k]);
      this.aduSize, this.isResponse, this.transactionId := |bytes|, false, 1;
      new;
      assert adu[..] == bytes;
    }

    /** A response that keeps the ADU of a request. */
    constructor ResponseTo(request: Message)
      requires request.Valid()
      ensures Valid() && fresh(adu) && backend == request.backend
      ensures View() == request.View().(response := true)
    {
      this.net, this.backend, this.pduBegin := request.net, request.backend, request.pduBegin;
      var bytes := request.adu[..];
      this.adu := new byte[|bytes|](k requires 0 <= k < |bytes| => bytes[k]);
      this.aduSize, this.isResponse, this.transactionId := request.aduSize, true, request.transactionId;
      new;
      assert adu[..] == bytes;
    }

    method Size() returns (n: nat)
      requires Valid()
      ensures n == View().PduSize()
    {
      n := if aduSize > pduBegin then aduSize - pduBegin else 0;
    }

    method GetByte(offset: int) returns (b: byte)
      requires Valid() && View().Has(offset)
      ensures b == View().Byte(offset)
    {
      b := adu[pduBegin + offset];
    }

    method GetWord(offset: int) returns (w: word)
      requires Valid() && View().Has(offset) && View().Has(offset + 1)
      ensures w == View().Word(offset)
    {
      var hi, lo := adu[pduBegin + offset] as word, adu[pduBegin + offset + 1] as word;
      w := (hi << 8) + lo;
      SumIsJoin(adu[pduBegin + offset], adu[pduBegin + offset + 1]);
    }

    method SetByte(offset: int, value: byte)
      requires Valid() && View().Has(offset)
      modifies this`aduSize, adu
      ensures Valid() && View() == old(View()).SetByte(offset, value)
    {
      var index := pduBegin + offset;
      adu[index] := value;
      index := index + 1;
      aduSize := if aduSize < index then index else aduSize;
    }

    method SetWord(offset: int, value: word)
      requires Valid() && View().Has(offset) && View().Has(offset + 1)
      modifies this`aduSize, adu
      ensures Valid() && View() == old(View()).SetWord(offset, value)
    {
      var index := pduBegin + offset;
      adu[index] := High(value);
      index := index + 1;
      adu[index] := Low(value);
      index := index + 1;
      aduSize := if aduSize < index then index else aduSize;
    }

    method SetAduSize(size: nat)
      requires Valid() && size <= adu.Length
      modifies this`aduSize
      ensures Valid() && View() == old(View()).(size := size)
    {
      aduSize := size;
    }

    /** `setPdu` from bytes. */
    method SetPduBytes(data: seq<byte>)
      requires Valid() && pduBegin + |data| <= adu.Length
      modifies this`aduSize, adu
      ensures Valid() && View() == old(View()).SetPdu(data)
      ensures var begin := if net.Rtu? then 1 else 7;
              adu[..begin] == old(adu[..begin]) && adu[begin..aduSize] == data
              && adu[aduSize..] == old(adu[begin + |data|..])
    {
      ghost var was := adu[..];
      forall k | 0 <= k < |data| {
        adu[pduBegin + k] := data[k];
      }
      aduSize := pduBegin + |data|;
      Spliced(was, adu[..], pduBegin, data);
    }

    /** `setPdu` from another message (or from itself). */
    method SetPdu(src: Message)
      requires Valid() && src.Valid()
      requires pduBegin + src.View().PduSize() <= adu.Length
      modifies this`aduSize, adu
      ensures Valid() && View() == old(View()).SetPdu(old(src.View().Pdu()))
      ensures var begin := if net.Rtu? then 1 else 7;
              adu[..begin] == old(adu[..begin]) && adu[begin..aduSize] == old(src.View().Pdu())
    {
      var n := src.Size();
      var pdu := if n == 0 then [] else src.adu[src.pduBegin..src.aduSize];
      assert pdu == src.View().Pdu();
      SetPduBytes(pdu);
    }

    /** `prepareToSend`: through the backend when there is one. */
    method PrepareToSend() returns (ok: bool)
      requires Valid() && View().CanPrepare()
      requires backend.TcpBackend? ==> backend.tcp as object != this
      modifies this, adu, if backend.TcpBackend? then {backend.tcp} else {}
      ensures Valid()
      ensures backend.NoBackend? ==> (View(), ok) == PrepareAlone(old(View()))
      ensures backend.RtuBackend? ==> (View(), ok) == PrepareByRtu(old(View()))
      ensures backend.TcpBackend? ==>
                (View(), backend.tcp.transactionId, ok)
                == PrepareByTcp(old(View()), old(backend.tcp.transactionId))
    {
      hide High, Low, Crc16Of;
      match backend
      case RtuBackend(layer) =>
        ok := layer.PrepareToSend(this);
      case TcpBackend(layer) =>
        ok := layer.PrepareToSend(this);
      case NoBackend =>
        var size := Size();
        if size < 1 {
          return false;
        }
        match net {
          case Tcp =>
            var i := -(pduBegin as int);
            if !isResponse {
              var id := transactionId;
              transactionId := transactionId + 1;
              SetWord(i, id);
              SetWord(i + 2, 0);
            }
            size := Size();
            SetWord(i + 4, (size + 1) as word);
          case Rtu =>
            var crc := Crc16(adu, aduSize);
            SetWord(size, crc);
        }
        ok := true;
    }
  }

  lemma SumIsJoin(hi: byte, lo: byte)
    ensures (hi as word << 8) + lo as word == Join(hi, lo)
  {
  }

  lemma Spliced(was: seq<byte>, now: seq<byte>, begin: nat, pdu: seq<byte>)
    requires |now| == |was| && begin + |pdu| <= |was|
    requires forall k :: 0 <= k < |pdu| ==> now[begin + k] == pdu[k]
    requires forall k :: 0 <= k < begin || begin + |pdu| <= k < |was| ==> now[k] == was[k]
    ensures now == was[..begin] + pdu + was[begin + |pdu|..]
  {
    assert now[begin..begin + |pdu|] == pdu;
  }

  class RtuLayer {

    method PrepareToSend(msg: Message) returns (ok: bool)
      requires msg.Valid() && msg.View().CanPrepare()
      modifies msg`aduSize, msg.adu
      ensures msg.Valid() && (msg.View(), ok) == PrepareByRtu(old(msg.View()))
    {
      hide High, Low, Crc16Of;
      var size := msg.Size();
      if msg.net.Rtu? && size >= 1 {
        var aduSize, adu := msg.aduSize, msg.adu;
        var crc := Crc16(adu, aduSize);
        adu[aduSize] := High(crc);
        aduSize := aduSize + 1;
        adu[aduSize] := Low(crc);
        aduSize := aduSize + 1;
        msg.SetAduSize(aduSize);
        return true;
      }
      return false;
    }

    /** `checkMessage`, with the exceptions of `Message::crc` as values. */
    method CheckMessage(msg: Message) returns (r: Check)
      requires msg.Valid() && msg.aduSize >= 2
      ensures r == Frames.CheckMessage(msg.View())
    {
      hide Join, Crc16Of;
      var crc := Crc16(msg.adu, msg.aduSize - 2);
      assert msg.adu[..msg.aduSize - 2] == msg.adu[..][..msg.aduSize - 2];
      if !msg.net.Rtu? {
        return DomainError;
      }
      if msg.aduSize >= 4 {
        return InvalidArgument;
      }
      var size := msg.Size();
      var received := msg.GetWord(size as int - 2);
      return Verdict(crc == received);
    }
  }

  class TcpLayer {
    var transactionId: word

    constructor ()
      ensures transactionId == 1
    {
      transactionId := 1;
    }

    method PrepareToSend(msg: Message) returns (ok: bool)
      requires msg.Valid() && msg.View().CanPrepare()
      modifies this, msg.adu
      ensures msg.Valid()
      ensures (msg.View(), transactionId, ok) == PrepareByTcp(old(msg.View()), old(transactionId))
    {
      hide High, Low;
      var size := msg.Size();
      if msg.net.Tcp? && size >= 1 {
        var adu, s := msg.adu, (size + 1) as word;
        if !msg.isResponse {
          adu[0] := High(transactionId);
          adu[1] := Low(transactionId);
          transactionId := transactionId + 1;
          adu[2] := 0;
          adu[3] := 0;
        }
        adu[4] := High(s);
        adu[5] := Low(s);
        return true;
      }
      return false;
    }
  }
}
