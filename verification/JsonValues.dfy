/**
 Initial register values from a parsed configuration block (`getDataValues`
 and `writeRegisters` of src/json_p.h).
 */
module JsonValues {
  import opened Bytes
  import opened Swap
  import opened DataCodec
  import opened Mirror
  import opened Slaves
  import opened DataArrays

  /**
   A JSON value converted to the element type, as the memory image of the
   result: a string, with or without a number of that type in it, a number,
   or anything else.
   */
  datatype JsonValue = Text(image: seq<byte>) | BadText | Plain(image: seq<byte>) | Other

  function Zero(m: nat): seq<byte> {
    seq(2 * m, _ => 0 as byte)
  }

  predicate HasSize(v: JsonValue, m: nat) {
    (v.Text? || v.Plain?) ==> |v.image| == 2 * m
  }

  /** What the value contributes; text that is no number counts as zero. */
  function ImageOf(v: JsonValue, m: nat): (image: seq<byte>)
    requires HasSize(v, m) && !v.Other?
    ensures |image| == 2 * m
  {
    if v.BadText? then Zero(m) else v.image
  }

  function NumbersOf(vs: seq<JsonValue>, m: nat, littleHost: bool): (numbers: seq<seq<byte>>)
    requires forall v :: v in vs ==> HasSize(v, m) && !v.Other?
    ensures AllOfSize(numbers, m) && |numbers| == |vs|
  {
    seq(|vs|, i requires 0 <= i < |vs| => MostSignificantFirst(littleHost, ImageOf(vs[i], m)))
  }

  /** `getDataValues`: one element per value. Those from text still have registers that show zero. */
  method GetDataValues(e: Endian, vs: seq<JsonValue>, m: nat, littleHost: bool)
    returns (ok: bool, data: seq<Data>)
    requires m >= 1 && forall v :: v in vs ==> HasSize(v, m)
    ensures ok <==> forall v :: v in vs ==> !v.Other?
    ensures fresh(data) && fresh(Registers(data))
    ensures ok ==> Separate(data, m) && |data| == |vs|
    ensures ok ==> forall i :: 0 <= i < |vs| ==>
                     data[i].endian == e && data[i].littleHost == littleHost && data[i].image == ImageOf(vs[i], m)
    ensures ok ==> forall i :: 0 <= i < |vs| ==>
                     |data[i].image| == 2 * m && match vs[i]
                                                 case Text(image) => data[i].image == image
                                                 case Plain(image) => data[i].image == image
                                                 case _ => forall k :: 0 <= k < 2 * m ==> data[i].image[k] == 0
  {
    data := [];
    var k := 0;
    while k < |vs|
      invariant 0 <= k <= |vs| && |data| == k
      invariant forall i :: 0 <= i < k ==> !vs[i].Other?
      invariant fresh(data) && fresh(Registers(data)) && Separate(data, m)
      invariant forall i :: 0 <= i < k ==>
                  data[i].endian == e && data[i].littleHost == littleHost && data[i].image == ImageOf(vs[i], m)
    {
      if vs[k].Other? {
        return false, [];
      }
      var d := MakeValue(e, vs[k], m, littleHost);
      assert Registers(data + [d]) == Registers(data) + {d.registers} by {
        assert forall x :: x in data + [d] <==> x in data || x == d;
      }
      data := data + [d];
      k := k + 1;
    }
    ok := true;
  }

  /** One round of the loop. */
  method MakeValue(e: Endian, v: JsonValue, m: nat, littleHost: bool) returns (d: Data)
    requires m >= 1 && HasSize(v, m) && !v.Other?
    ensures fresh(d) && fresh(d.registers) && d.Valid() && d.size == 2 * m
    ensures d.endian == e && d.littleHost == littleHost && d.image == ImageOf(v, m)
  {
    hide Encode;
    d := new Data(littleHost, Zero(m), EndianBigBig);
    d.SetEndianness(e);
    match v
    case Text(image) => d.image := image;
    case BadText => d.Assign(Zero(m));
    case Plain(image) => d.Assign(image);
  }

  /** In the registers written for them, a number is the integer configured, and text that is none is zero. */
  lemma ConfiguredValue(e: Endian, vs: seq<JsonValue>, m: nat, littleHost: bool, i: nat)
    requires i < |vs| && forall v :: v in vs ==> HasSize(v, m) && !v.Other?
    ensures var flat := Flat(e, NumbersOf(vs, m, littleHost));
            && Groups(i, m) + m <= |flat|
            && ShownValue(e, Group(flat, i, m))
               == if vs[i].BadText? then 0 else ImageValue(littleHost, vs[i].image)
  {
    hide ShownValue, Group, Flat;
    FlatShowsValue(e, NumbersOf(vs, m, littleHost), m, i, littleHost, ImageOf(vs[i], m));
    ZeroValue(Zero(m), littleHost);
  }

  lemma {:induction false} ZeroValue(image: seq<byte>, littleHost: bool)
    requires forall k :: 0 <= k < |image| ==> image[k] == 0
    ensures ImageValue(littleHost, image) == 0
  {
    if image == [] {
    } else if littleHost {
      ZeroValue(image[1..], true);
    } else {
      ZeroValue(image[..|image| - 1], false);
    }
  }

  /**
   `writeRegisters`: the table asked for then holds the values in the order
   asked for, as far as they fit, whichever way they were given; the other
   table of registers is untouched, and both are when a value is unusable.
   Holding registers are written through, input registers kept in the block.
   */
  method WriteRegisterValues(s: BufferedSlave, kind: Kind, addr: int, e: Endian, nmemb: int, vs: seq<JsonValue>,
                             m: nat, littleHost: bool, link: Link)
    returns (rc: int, ok: bool)
    requires s.registers.Valid() && s.inputRegisters.Valid() && s.registers != s.inputRegisters
    requires s.registers.tab == null || s.registers.tab != s.inputRegisters.tab
    requires m >= 1 && forall v :: v in vs ==> HasSize(v, m)
    modifies s.registers`far, s.registers`dirty, s.registers.tab
    modifies s.inputRegisters`far, s.inputRegisters`dirty, s.inputRegisters.tab
    ensures s.registers.Valid() && s.inputRegisters.Valid()
    ensures vs == [] || nmemb <= 0 ==> ok && rc == 0
    ensures vs != [] && nmemb > 0 ==> (ok <==> forall v :: v in vs ==> !v.Other?)
    ensures vs == [] || nmemb <= 0 || !ok || !kind.HoldingRegister? ==> s.registers.View() == old(s.registers.View())
    ensures vs == [] || nmemb <= 0 || !ok || kind.HoldingRegister? ==>
              s.inputRegisters.View() == old(s.inputRegisters.View())
    ensures vs != [] && nmemb > 0 && ok && kind.HoldingRegister? ==>
              (s.registers.View(), rc)
              == WriteStep(old(s.registers.View()), s.PduAddress(addr), Flat(e, NumbersOf(vs, m, littleHost)), link)
    ensures vs != [] && nmemb > 0 && ok && !kind.HoldingRegister? ==>
              (s.inputRegisters.View(), rc)
              == WriteLocalStep(old(s.inputRegisters.View()), s.PduAddress(addr),
                                Flat(e, NumbersOf(vs, m, littleHost)))
  {
    hide WriteStep, WriteLocalStep, Encode;
    rc, ok := 0, true;
    if vs != [] && nmemb > 0 {
      var data;
      ok, data := GetDataValues(e, vs, m, littleHost);
      if ok {
        assert Numbers(data) == NumbersOf(vs, m, littleHost);
        if kind.HoldingRegister? {
          rc := WriteData(s, addr, data, m, e, link);
        } else {
          rc := WriteInputData(s, addr, data, m, e);
        }
      }
    }
  }
}
