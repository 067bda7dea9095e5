/** The slot table of the socket monitor. Searches stop when they have seen as many used slots as are counted,
    not at the end of the array. */
module IoSelect {
  const NSOCKIO: nat := 100

  /** A used slot's handle, or the handle last stored in a free one. */
  datatype Slot = Slot(used: bool, hsock: int, onread: bool, onwrite: bool, onclose: bool)

  /** The used slots among the first `n`. */
  function Count(s: seq<Slot>, n: nat): (c: nat)
    requires n <= |s|
    ensures c <= n
  {
    if n == 0 then 0 else Count(s, n - 1) + if s[n - 1].used then 1 else 0
  }

  function Higher(a: int, b: int): int {
    if a < b then b else a
  }

  /** The highest handle of the used slots among the first `n`, 0 if none is higher. */
  function Highest(s: seq<Slot>, n: nat): int
    requires n <= |s|
  {
    if n == 0 then 0
    else if s[n - 1].used then Higher(Highest(s, n - 1), s[n - 1].hsock)
    else Highest(s, n - 1)
  }

  lemma {:induction false} CountUpdate(s: seq<Slot>, i: nat, slot: Slot, n: nat)
    requires n <= |s| && i < |s|
    ensures Count(s[i := slot], n)
         == Count(s, n) + (if i < n && slot.used then 1 else 0) - (if i < n && s[i].used then 1 else 0)
  {
    if n > 0 {
      CountUpdate(s, i, slot, n - 1);
    }
  }

  /** As long as not all counted slots have been seen, a used one lies ahead. */
  lemma {:induction false} CountGrows(s: seq<Slot>, i: nat, n: nat)
    requires i <= n <= |s|
    ensures Count(s, i) <= Count(s, n)
    ensures Count(s, i) < Count(s, n) <==> exists j :: i <= j < n && s[j].used
  {
    if i < n {
      CountGrows(s, i, n - 1);
      assert Count(s, n) == Count(s, n - 1) + if s[n - 1].used then 1 else 0;
    }
  }

  lemma {:induction false} HighestIs(s: seq<Slot>, n: nat)
    requires n <= |s|
    ensures Highest(s, n) >= 0 && forall i :: 0 <= i < n && s[i].used ==> s[i].hsock <= Highest(s, n)
    ensures Highest(s, n) == 0 || exists i :: 0 <= i < n && s[i].used && s[i].hsock == Highest(s, n)
  {
    if n > 0 {
      HighestIs(s, n - 1);
    }
  }

  lemma {:induction false} HighestAdd(s: seq<Slot>, i: nat, slot: Slot, n: nat)
    requires i < |s| && n <= |s| && !s[i].used && slot.used
    ensures Highest(s[i := slot], n) == if i < n then Higher(Highest(s, n), slot.hsock) else Highest(s, n)
  {
    if n > 0 {
      HighestAdd(s, i, slot, n - 1);
    }
  }

  /** Giving up a slot whose handle is not the highest leaves the highest. */
  lemma HighestDrop(s: seq<Slot>, i: nat, slot: Slot, n: nat)
    requires i < |s| && n <= |s| && s[i].used && !slot.used && s[i].hsock != Highest(s, n)
    ensures Highest(s[i := slot], n) == Highest(s, n)
  {
    var t := s[i := slot];
    HighestIs(s, n);
    HighestIs(t, n);
    hide Highest;
    if Highest(s, n) != 0 {
      var j :| 0 <= j < n && s[j].used && s[j].hsock == Highest(s, n);
      assert t[j] == s[j];
    }
    if Highest(t, n) != 0 {
      var j :| 0 <= j < n && t[j].used && t[j].hsock == Highest(t, n);
      assert t[j] == s[j];
    }
  }

  class IoSelect {
    const slots: array<Slot>
    var nrUsed: int
    var hsockMax: int

    ghost predicate Valid()
      reads this, slots
    {
      && slots.Length == NSOCKIO
      && nrUsed == Count(slots[..], NSOCKIO) && hsockMax == Highest(slots[..], NSOCKIO)
    }

    ghost predicate Used(hsock: int)
      reads slots
    {
      exists i :: 0 <= i < slots.Length && slots[i].used && slots[i].hsock == hsock
    }

    constructor ()
      ensures Valid() && fresh(slots) && nrUsed == 0
    {
      slots := new Slot[NSOCKIO](_ => Slot(false, 0, false, false, false));
      nrUsed, hsockMax := 0, 0;
      new;
      NoneUsed(slots[..], NSOCKIO);
    }

    /** Where a search for used slots that has seen `i` slots stands, with `left` still to be seen. */
    ghost predicate Searching(i: int, left: int)
      requires slots.Length == NSOCKIO
      reads slots
    {
      0 <= i <= NSOCKIO && left == Count(slots[..], NSOCKIO) - Count(slots[..], i)
    }

    /** The loops `while (nr_used)` stay inside the array. */
    lemma SearchGoesOn(i: int, left: int)
      requires slots.Length == NSOCKIO && Searching(i, left)
      ensures left >= 0
      ensures left == 0 ==> forall j :: i <= j < NSOCKIO ==> !slots[j].used
      ensures left != 0 ==> i < NSOCKIO && Searching(i + 1, if slots[i].used then left - 1 else left)
    {
      CountGrows(slots[..], i, NSOCKIO);
    }

    lemma SearchStarts()
      requires Valid()
      ensures Searching(0, nrUsed)
    {
    }

    /** `searchfor_sockio`: a handle is found exactly if a used slot has it, and then the first such slot is. */
    method Search(hsock: int) returns (found: bool, idx: int)
      requires Valid()
      ensures found <==> Used(hsock)
      ensures found ==> 0 <= idx < NSOCKIO && slots[idx].used && slots[idx].hsock == hsock
      ensures found ==> forall j :: 0 <= j < idx ==> !(slots[j].used && slots[j].hsock == hsock)
    {
      var left, i := nrUsed, 0;
      SearchStarts();
      hide Searching, Valid, Count, Highest;
      while left != 0
        invariant slots.Length == NSOCKIO && Searching(i, left) && 0 <= i <= NSOCKIO
        invariant forall j :: 0 <= j < i ==> !(slots[j].used && slots[j].hsock == hsock)
        decreases NSOCKIO - i
      {
        SearchGoesOn(i, left);
        if slots[i].used {
          left := left - 1;
          if slots[i].hsock == hsock {
            return true, i;
          }
        }
        i := i + 1;
      }
      SearchGoesOn(i, left);
      return false, 0;
    }

    /** `highest_sockio`. */
    method FindHighest() returns (found: bool, hsock: int)
      requires slots.Length == NSOCKIO && nrUsed == Count(slots[..], NSOCKIO)
      ensures hsock == Highest(slots[..], NSOCKIO)
      ensures found <==> nrUsed != 0
    {
      found, hsock := false, 0;
      var left, i := nrUsed, 0;
      while left != 0
        invariant Searching(i, left) && 0 <= i <= NSOCKIO && hsock == Highest(slots[..], i)
        invariant found <==> left != nrUsed
        decreases NSOCKIO - i
      {
        SearchGoesOn(i, left);
        if slots[i].used {
          left := left - 1;
          found := true;
          if hsock < slots[i].hsock {
            hsock := slots[i].hsock;
          }
        }
        i := i + 1;
      }
      SearchGoesOn(i, left);
      HighestRest(slots[..], i, NSOCKIO);
    }

    /** `searchfor_available_sockio`. */
    method SearchAvailable() returns (found: bool, idx: int)
      requires Valid()
      ensures found <==> nrUsed < NSOCKIO
      ensures found ==> 0 <= idx < NSOCKIO && !slots[idx].used && forall j :: 0 <= j < idx ==> slots[j].used
    {
      if nrUsed == NSOCKIO {
        return false, 0;
      }
      var i := 0;
      while i < NSOCKIO
        invariant 0 <= i <= NSOCKIO && forall j :: 0 <= j < i ==> slots[j].used
      {
        if !slots[i].used {
          return true, i;
        }
        i := i + 1;
      }
      AllUsed(slots[..], NSOCKIO);
      return false, 0;
    }

    /** `register_sockhdl`: the first free slot takes the handle, if there is a free slot. */
    method Register(hsock: int) returns (ok: bool)
      requires Valid()
      modifies this`nrUsed, this`hsockMax, slots
      ensures Valid() && ok == (old(nrUsed) < NSOCKIO)
      ensures !ok ==> slots[..] == old(slots[..])
      ensures ok ==> nrUsed == old(nrUsed) + 1 && exists i ::
                       && 0 <= i < NSOCKIO && old(!slots[i].used) && (forall j :: 0 <= j < i ==> old(slots[j].used))
                       && slots[..] == old(slots[..])[i := Slot(true, hsock, false, false, false)]
    {
      var i;
      ok, i := SearchAvailable();
      if !ok {
        return;
      }
      var slot := Slot(true, hsock, false, false, false);
      CountUpdate(slots[..], i, slot, NSOCKIO);
      HighestAdd(slots[..], i, slot, NSOCKIO);
      ghost var was := slots[..];
      nrUsed := nrUsed + 1;
      if hsock > hsockMax {
        hsockMax := hsock;
      }
      slots[i] := slot;
      assert slots[..] == was[i := slot];
    }

    /** `release_sockio`, which compares the handle that `reset_sockio` leaves in the slot. */
    method Release(i: nat) returns (ok: bool)
      requires Valid() && i < NSOCKIO
      modifies this`nrUsed, this`hsockMax, slots
      ensures Valid() && ok == old(slots[i].used)
      ensures slots[..] == if ok then old(slots[..])[i := Slot(false, old(slots[i].hsock), false, false, false)]
                           else old(slots[..])
      ensures ok ==> nrUsed == old(nrUsed) - 1
    {
      if !slots[i].used {
        return false;
      }
      ghost var was := slots[..];
      var slot := Slot(false, slots[i].hsock, false, false, false);
      CountUpdate(was, i, slot, NSOCKIO);
      if was[i].hsock != Highest(was, NSOCKIO) {
        HighestDrop(was, i, slot, NSOCKIO);
      }
      nrUsed := nrUsed - 1;
      slots[i] := slot;
      assert slots[..] == was[i := slot];
      if slots[i].hsock == hsockMax {
        var found;
        found, hsockMax := FindHighest();
        if !found {
          NoUsedNoHighest(slots[..], NSOCKIO);
          hsockMax := 0;
        }
      }
      ok := true;
    }

    /** `unregister_sockhdl`: the first used slot with the handle is given up. */
    method Unregister(hsock: int) returns (ok: bool)
      requires Valid()
      modifies this`nrUsed, this`hsockMax, slots
      ensures Valid() && ok == old(Used(hsock))
      ensures !ok ==> slots[..] == old(slots[..])
      ensures ok ==> nrUsed == old(nrUsed) - 1 && exists i ::
                       && 0 <= i < NSOCKIO && old(slots[i].used && slots[i].hsock == hsock)
                       && (forall j :: 0 <= j < i ==> !old(slots[j].used && slots[j].hsock == hsock))
                       && slots[..] == old(slots[..])[i := Slot(false, hsock, false, false, false)]
    {
      var found, i := Search(hsock);
      if !found {
        return false;
      }
      ok := Release(i);
    }

    /** `prepare_events`: the handles to watch are those of the used slots that wait for something. */
    method PrepareEvents() returns (any: bool, rdset: set<int>, wrset: set<int>)
      requires Valid()
      ensures rdset == Readers(slots[..], NSOCKIO) && wrset == Writers(slots[..], NSOCKIO)
      ensures forall h :: h in rdset <==> exists i :: 0 <= i < NSOCKIO && slots[i].used && slots[i].hsock == h
                                                  && (slots[i].onread || slots[i].onclose)
      ensures forall h :: h in wrset <==> exists i :: 0 <= i < NSOCKIO && slots[i].used && slots[i].hsock == h
                                                  && slots[i].onwrite
      ensures any <==> rdset != {} || wrset != {}
    {
      rdset, wrset := {}, {};
      var toProcess, nev, i := 0, 0, 0;
      SearchStarts();
      while nev < nrUsed
        invariant Searching(i, nrUsed - nev) && 0 <= i <= NSOCKIO && toProcess >= 0
        invariant rdset == Readers(slots[..], i) && wrset == Writers(slots[..], i)
        invariant toProcess > 0 <==> rdset != {} || wrset != {}
        decreases NSOCKIO - i
      {
        SearchGoesOn(i, nrUsed - nev);
        if slots[i].used {
          nev := nev + 1;
          if slots[i].onread || slots[i].onclose {
            rdset := rdset + {slots[i].hsock};
            toProcess := toProcess + 1;
          }
          if slots[i].onwrite {
            wrset := wrset + {slots[i].hsock};
            toProcess := toProcess + 1;
          }
        }
        i := i + 1;
      }
      SearchGoesOn(i, nrUsed - nev);
      NoMoreEvents(slots[..], i, NSOCKIO);
      any := toProcess != 0;
    }
  }

  function Readers(s: seq<Slot>, n: nat): set<int>
    requires n <= |s|
  {
    set i | 0 <= i < n && s[i].used && (s[i].onread || s[i].onclose) :: s[i].hsock
  }

  function Writers(s: seq<Slot>, n: nat): set<int>
    requires n <= |s|
  {
    set i | 0 <= i < n && s[i].used && s[i].onwrite :: s[i].hsock
  }

  lemma NoMoreEvents(s: seq<Slot>, i: nat, n: nat)
    requires i <= n <= |s| && forall j :: i <= j < n ==> !s[j].used
    ensures Readers(s, i) == Readers(s, n) && Writers(s, i) == Writers(s, n)
  {
  }

  lemma {:induction false} HighestRest(s: seq<Slot>, i: nat, n: nat)
    requires i <= n <= |s| && forall j :: i <= j < n ==> !s[j].used
    ensures Highest(s, i) == Highest(s, n)
  {
    if i < n {
      HighestRest(s, i, n - 1);
    }
  }

  lemma {:induction false} NoneUsed(s: seq<Slot>, n: nat)
    requires n <= |s| && forall j :: 0 <= j < n ==> !s[j].used
    ensures Count(s, n) == 0 && Highest(s, n) == 0
  {
    if n > 0 {
      NoneUsed(s, n - 1);
    }
  }

  lemma {:induction false} AllUsed(s: seq<Slot>, n: nat)
    requires n <= |s| && forall j :: 0 <= j < n ==> s[j].used
    ensures Count(s, n) == n
  {
    if n > 0 {
      AllUsed(s, n - 1);
    }
  }

  lemma NoUsedNoHighest(s: seq<Slot>, n: nat)
    requires n <= |s| && Count(s, n) == 0
    ensures Highest(s, n) == 0
  {
    CountGrows(s, 0, n);
    NoneUsed(s, n);
  }
}
