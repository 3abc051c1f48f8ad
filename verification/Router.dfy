/**
 Opening a router and its masters together (src/router.cpp, with the parts of
 src/device.cpp and src/server.cpp it calls). Whether a connection can be
 made is a parameter of every attempt.
 */
module Router {

  class Device {
    const isValid: bool
    var isOpen: bool

    constructor (isValid: bool)
      ensures this.isValid == isValid && !isOpen
    {
      this.isValid, this.isOpen := isValid, false;
    }

    /** `Device::open`: nothing is tried when already open. */
    method Open(connects: bool) returns (ok: bool)
      modifies this
      ensures isOpen == (old(isOpen) || (isValid && connects)) && ok == isOpen
    {
      if isValid {
        if !isOpen {
          isOpen := connects;
        }
      }
      return isOpen;
    }

    method Close()
      modifies this
      ensures !isOpen
    {
      if isOpen {
        isOpen := false;
      }
    }
  }

  ghost predicate Distinct(masters: seq<Device>) {
    forall i, j :: 0 <= i < j < |masters| ==> masters[i] != masters[j]
  }

  class Router {
    const masters: seq<Device>
    var isValid: bool
    var isOpen: bool
    /** The server's own socket or serial line. */
    var listening: bool

    ghost predicate Valid()
      reads this
    {
      Distinct(masters)
    }

    constructor (masters: seq<Device>, isValid: bool)
      requires Distinct(masters)
      ensures Valid() && this.masters == masters && this.isValid == isValid && !isOpen && !listening
    {
      this.masters, this.isValid, this.isOpen, this.listening := masters, isValid, false, false;
    }

    /** Whether master `i` is, or can be, open. */
    predicate Reaches(i: nat, connects: seq<bool>)
      requires i < |masters| == |connects|
      reads masters
    {
      masters[i].isOpen || (masters[i].isValid && connects[i])
    }

    /** `Router::Private::open`: all of them, or none. */
    method OpenAll(connects: seq<bool>, listens: bool) returns (isOk: bool)
      requires Valid() && |connects| == |masters|
      modifies this`listening, masters
      ensures isOk <==> listens && forall i :: 0 <= i < |masters| ==> old(Reaches(i, connects))
      ensures isOk ==> listening && forall m :: m in masters ==> m.isOpen
      ensures !isOk ==> forall m :: m in masters ==> !m.isOpen
      ensures !isOk ==> listening == (old(listening) && exists i :: 0 <= i < |masters| && !old(Reaches(i, connects)))
    {
      isOk := true;
      var i := 0;
      while i < |masters|
        invariant 0 <= i <= |masters|
        invariant isOk <==> forall j :: 0 <= j < i ==> old(Reaches(j, connects))
        invariant isOk ==> forall j :: 0 <= j < i ==> masters[j].isOpen
        invariant forall j :: i <= j < |masters| ==> masters[j].isOpen == old(masters[j].isOpen)
        invariant listening == old(listening)
      {
        if isOk {
          isOk := masters[i].Open(connects[i]);
          assert isOk == old(Reaches(i, connects));
        }
        i := i + 1;
      }
      if isOk {
        listening := listens;
        isOk := listens;
      }
      if !isOk {
        CloseMasters();
      }
    }

    method CloseMasters()
      modifies masters
      ensures forall m :: m in masters ==> !m.isOpen
    {
      var i := 0;
      while i < |masters|
        invariant 0 <= i <= |masters|
        invariant forall j :: 0 <= j < i ==> !masters[j].isOpen
      {
        masters[i].Close();
        i := i + 1;
      }
    }

    /** `Device::open` on the router. */
    method Open(connects: seq<bool>, listens: bool) returns (ok: bool)
      requires Valid() && |connects| == |masters|
      modifies this, masters
      ensures Valid() && ok == isOpen && isValid == old(isValid)
      ensures old(isOpen) ==>
                ok && listening == old(listening) && forall m :: m in masters ==> m.isOpen == old(m.isOpen)
      ensures !old(isOpen) ==>
                (ok <==> isValid && listens && forall i :: 0 <= i < |masters| ==> old(Reaches(i, connects)))
      ensures !old(isOpen) && ok ==> listening && forall m :: m in masters ==> m.isOpen
      ensures !old(isOpen) && isValid && !ok ==> forall m :: m in masters ==> !m.isOpen
      ensures !isValid ==> listening == old(listening) && forall m :: m in masters ==> m.isOpen == old(m.isOpen)
    {
      if isValid {
        if !isOpen {
          isOpen := OpenAll(connects, listens);
        }
      }
      return isOpen;
    }

    /** `Router::close`: only when open, and then the masters too. */
    method Close()
      requires Valid()
      modifies this, masters
      ensures Valid() && !isOpen && isValid == old(isValid)
      ensures old(isOpen) ==> !listening && forall m :: m in masters ==> !m.isOpen
      ensures !old(isOpen) ==> listening == old(listening) && forall m :: m in masters ==> m.isOpen == old(m.isOpen)
    {
      if isOpen {
        listening := false;
        isOpen := false;
        CloseMasters();
      }
    }

    /**
     The recovery branch of `Server::Private::task`: the listener is closed
     and everything opened again, masters still open staying so. When that
     fails the source throws; the router still counts as open.
     */
    method Recover(connects: seq<bool>, listens: bool) returns (ok: bool)
      requires Valid() && isOpen && |connects| == |masters|
      modifies this`listening, masters
      ensures Valid() && isOpen
      ensures ok <==> listens && forall i :: 0 <= i < |masters| ==> old(Reaches(i, connects))
      ensures ok ==> listening && forall m :: m in masters ==> m.isOpen
      ensures !ok ==> !listening && forall m :: m in masters ==> !m.isOpen
    {
      listening := false;
      assert forall i :: 0 <= i < |masters| ==> Reaches(i, connects) == old(Reaches(i, connects));
      ok := OpenAll(connects, listens);
    }
  }
}
