/** `nac_mem_malloc` and `nac_mem_free`: the allocated areas are lent to the card drivers,
    each to one at a time. */
module Leases {

  class LeaseTable {
    const vaddr: array<nat>
    const size: array<nat>
    const inuse: array<int>
    /** How many cards have an area: they come first. */
    ghost const areas: nat
    /** The areas lent out, and the areas whose count has gone below zero. */
    ghost var lent: set<nat>
    ghost var withheld: set<nat>

    ghost predicate IsArea(a: nat)
      reads vaddr
    {
      a != 0 && exists i :: 0 <= i < vaddr.Length && vaddr[i] == a
    }

    ghost predicate Valid()
      reads this, vaddr, size, inuse
    {
      && vaddr.Length == size.Length == inuse.Length && areas <= vaddr.Length
      && vaddr != size && lent !! withheld
      && (forall i :: 0 <= i < vaddr.Length ==> (vaddr[i] != 0 <==> i < areas))
      && (forall i, j :: 0 <= i < j < areas ==> vaddr[i] != vaddr[j])
      && (forall i :: 0 <= i < vaddr.Length ==>
            if vaddr[i] in lent then inuse[i] == 1
            else if vaddr[i] in withheld then inuse[i] < 0
            else if vaddr[i] != 0 then inuse[i] == 0
            else inuse[i] <= 0)
      && (forall a :: a in lent || a in withheld ==> IsArea(a))
    }

    /** The slots as initialisation leaves them: areas in a prefix, none lent. */
    constructor (vaddr: array<nat>, size: array<nat>, ghost areas: nat)
      requires vaddr.Length == size.Length && areas <= vaddr.Length && vaddr != size
      requires forall i :: 0 <= i < vaddr.Length ==> (vaddr[i] != 0 <==> i < areas)
      requires forall i, j :: 0 <= i < j < areas ==> vaddr[i] != vaddr[j]
      ensures Valid() && fresh(inuse) && lent == withheld == {}
      ensures this.vaddr == vaddr && this.size == size && this.areas == areas
    {
      this.vaddr, this.size, this.areas := vaddr, size, areas;
      inuse := new int[vaddr.Length](_ => 0);
      lent, withheld := {}, {};
    }

    /** `nac_mem_malloc`: the result is null exactly when every area is lent or withheld;
        otherwise it is the first area that is neither. The wanted size is cut to the
        area's, and zero asks for all of it. */
    method Malloc(msize: nat) returns (r: nat, granted: nat)
      requires Valid()
      modifies this`lent, inuse
      ensures Valid()
      ensures r == 0 <==> forall i :: 0 <= i < areas ==> vaddr[i] in old(lent) || vaddr[i] in withheld
      ensures r == 0 ==> lent == old(lent)
      ensures r != 0 ==> r !in old(lent) && r !in withheld && IsArea(r) && lent == old(lent) + {r}
      ensures r != 0 ==> forall i, k :: 0 <= k < i < areas && vaddr[i] == r ==> vaddr[k] in old(lent) || vaddr[k] in withheld
      ensures r != 0 ==> forall i :: 0 <= i < vaddr.Length && vaddr[i] == r ==>
                granted == if msize == 0 || msize > size[i] then size[i] else msize
    {
      r, granted := 0, msize;
      var i := 0;
      while i < vaddr.Length
        invariant 0 <= i <= vaddr.Length
        invariant forall k :: 0 <= k < i ==> inuse[k] != 0
      {
        if inuse[i] == 0 {
          break;
        }
        i := i + 1;
      }
      if i == vaddr.Length {
        return;
      }
      r := vaddr[i];
      if msize > size[i] || msize == 0 {
        granted := size[i];
      }
      if r == 0 {
        return;
      }
      inuse[i] := inuse[i] + 1;
      lent := lent + {r};
    }

    /** `nac_mem_free` of any pointer: a lent area is given back; freeing an area that is not
        lent withholds it from then on; any other pointer changes no area. */
    method Free(objp: nat)
      requires Valid()
      modifies this`lent, this`withheld, inuse
      ensures Valid()
      ensures lent == old(lent) - {objp}
      ensures withheld == if IsArea(objp) && objp !in old(lent) then old(withheld) + {objp} else old(withheld)
    {
      var i := 0;
      while i < vaddr.Length
        invariant 0 <= i <= vaddr.Length
        invariant forall k :: 0 <= k < i ==> vaddr[k] != objp
      {
        if vaddr[i] == objp {
          break;
        }
        i := i + 1;
      }
      if i == vaddr.Length {
        return;
      }
      inuse[i] := inuse[i] - 1;
      if objp in lent {
        lent := lent - {objp};
      } else if objp != 0 {
        withheld := withheld + {objp};
      }
    }
  }

  /** A driver's request: borrow an area of some size, or give a pointer back. */
  datatype Request = Borrow(msize: nat) | Return(area: nat)

  /** The areas out after a request, from its answer alone. */
  function HeldNext(held: set<nat>, request: Request, answer: nat): set<nat> {
    match request
    case Borrow(_) => if answer != 0 then held + {answer} else held
    case Return(area) => held - {area}
  }

  /** And after some requests. */
  function HeldAfter(requests: seq<Request>, answers: seq<nat>): set<nat>
    requires |requests| == |answers|
  {
    if requests == [] then {}
    else
      var n := |requests| - 1;
      HeldNext(HeldAfter(requests[..n], answers[..n]), requests[n], answers[n])
  }

  /** The pointers that were returned at a time when they were not out. */
  function StrayNext(stray: set<nat>, held: set<nat>, request: Request): set<nat> {
    if request.Return? && request.area !in held then stray + {request.area} else stray
  }

  function StrayAfter(requests: seq<Request>, answers: seq<nat>): set<nat>
    requires |requests| == |answers|
  {
    if requests == [] then {}
    else
      var n := |requests| - 1;
      StrayNext(StrayAfter(requests[..n], answers[..n]), HeldAfter(requests[..n], answers[..n]), requests[n])
  }

  lemma OneMoreAnswer(requests: seq<Request>, answers: seq<nat>, answer: nat)
    requires |answers| < |requests|
    ensures
      var n := |answers|;
      var held, stray := HeldAfter(requests[..n], answers), StrayAfter(requests[..n], answers);
      && HeldAfter(requests[..n + 1], answers + [answer]) == HeldNext(held, requests[n], answer)
      && StrayAfter(requests[..n + 1], answers + [answer]) == StrayNext(stray, held, requests[n])
  {
    var n := |answers|;
    assert requests[..n + 1][..n] == requests[..n] && (answers + [answer])[..n] == answers;
  }

  /** An answer to a request for an area: the first one that nobody has and that was never
      returned without being out; null exactly if there is none. */
  ghost predicate Answered(vaddr: seq<nat>, areas: nat, held: set<nat>, stray: set<nat>, answer: nat)
    requires areas <= |vaddr|
  {
    && (answer != 0 ==> answer in vaddr && answer !in held && answer !in stray)
    && (answer != 0 ==> forall i, k :: 0 <= k < i < areas && vaddr[i] == answer ==> vaddr[k] in held || vaddr[k] in stray)
    && (answer == 0 <==> forall i :: 0 <= i < areas ==> vaddr[i] in held || vaddr[i] in stray)
  }

  /** Every request for an area so far has been answered like that. */
  ghost predicate AllAnswered(vaddr: seq<nat>, areas: nat, requests: seq<Request>, answers: seq<nat>)
    requires areas <= |vaddr| && |answers| <= |requests|
  {
    forall k :: 0 <= k < |answers| && requests[k].Borrow? ==>
      Answered(vaddr, areas, HeldAfter(requests[..k], answers[..k]), StrayAfter(requests[..k], answers[..k]), answers[k])
  }

  lemma AllAnsweredSnoc(vaddr: seq<nat>, areas: nat, requests: seq<Request>, answers: seq<nat>, answer: nat)
    requires areas <= |vaddr| && |answers| < |requests| && AllAnswered(vaddr, areas, requests, answers)
    requires
      var n := |answers|;
      requests[n].Borrow? ==>
        Answered(vaddr, areas, HeldAfter(requests[..n], answers), StrayAfter(requests[..n], answers), answer)
    ensures AllAnswered(vaddr, areas, requests, answers + [answer])
  {
    hide Answered, HeldAfter, StrayAfter;
    var more := answers + [answer];
    forall k | 0 <= k < |more| && requests[k].Borrow?
      ensures Answered(vaddr, areas, HeldAfter(requests[..k], more[..k]), StrayAfter(requests[..k], more[..k]), more[k])
    {
      assert more[..k] == answers[..k];
      if k == |answers| {
        assert answers[..k] == answers;
      }
    }
  }

  /** One request, given the pointers that are stray. */
  method ServeOne(leases: LeaseTable, request: Request, ghost stray: set<nat>) returns (answer: nat)
    requires leases.Valid() && forall a :: a in leases.withheld <==> leases.IsArea(a) && a in stray
    modifies leases`lent, leases`withheld, leases.inuse
    ensures leases.Valid()
    ensures request.Borrow? ==> Answered(leases.vaddr[..], leases.areas, old(leases.lent), stray, answer)
    ensures leases.lent == HeldNext(old(leases.lent), request, answer)
    ensures forall a :: a in leases.withheld <==>
              leases.IsArea(a) && a in StrayNext(stray, old(leases.lent), request)
  {
    answer := 0;
    match request {
      case Borrow(msize) =>
        var granted;
        answer, granted := leases.Malloc(msize);
      case Return(area) =>
        leases.Free(area);
    }
  }

  /** Any run of borrowing and returning, matching or not: each area is granted only while
      nobody has it, and a request is turned down exactly when every area is out or has
      once been returned without being out. */
  method Serve(leases: LeaseTable, requests: seq<Request>) returns (answers: seq<nat>, held: set<nat>)
    requires leases.Valid() && leases.lent == leases.withheld == {}
    modifies leases`lent, leases`withheld, leases.inuse
    ensures leases.Valid() && |answers| == |requests|
    ensures held == HeldAfter(requests, answers)
    ensures leases.lent == held
    ensures AllAnswered(leases.vaddr[..], leases.areas, requests, answers)
  {
    answers, held := [], {};
    ghost var stray: set<nat> := {};
    assert requests[..0] == [];
    while |answers| < |requests|
      invariant leases.Valid() && held == leases.lent && |answers| <= |requests|
      invariant held == HeldAfter(requests[..|answers|], answers)
      invariant stray == StrayAfter(requests[..|answers|], answers)
      invariant forall a :: a in leases.withheld <==> leases.IsArea(a) && a in stray
      invariant AllAnswered(leases.vaddr[..], leases.areas, requests, answers)
    {
      hide HeldAfter, StrayAfter, HeldNext, StrayNext, Answered, AllAnswered;
      var request := requests[|answers|];
      var answer := ServeOne(leases, request, stray);
      OneMoreAnswer(requests, answers, answer);
      AllAnsweredSnoc(leases.vaddr[..], leases.areas, requests, answers, answer);
      stray := StrayNext(stray, held, request);
      held := HeldNext(held, request, answer);
      answers := answers + [answer];
    }
    assert requests[..|answers|] == requests;
  }
}
