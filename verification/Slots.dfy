/**
  The slot allocator, `crates/vo-common/src/slot.rs:201-294`.
 */
module Slots {
  import opened Options

  const MAX_SLOTS: nat := 65535

  datatype AllocResult = Allocated(index: nat) | LimitExceeded(limit: nat) | DuplicateName(name: string)
  datatype SlotValue = Null | Other(text: string)

  class SlotAllocator {
    var slots: map<string, nat>
    var names: seq<string>
    var next: nat

    /** The map and the list are inverse to each other, with indices 0 up to `next`. */
    ghost predicate Valid()
      reads this
    {
      && next == |names| == |slots| <= MAX_SLOTS
      && (forall i :: 0 <= i < |names| ==> names[i] in slots && slots[names[i]] == i)
      && (forall name :: name in slots ==> slots[name] < |names| && names[slots[name]] == name)
    }

    constructor ()
      ensures Valid() && names == []
    {
      slots, names, next := map[], [], 0;
    }

    method Alloc(name: string) returns (r: AllocResult)
      requires Valid()
      modifies this
      ensures Valid()
      ensures r == if name in old(names) then DuplicateName(name)
                   else if |old(names)| == MAX_SLOTS then LimitExceeded(MAX_SLOTS)
                   else Allocated(|old(names)|)
      ensures names == if r.Allocated? then old(names) + [name] else old(names)
      ensures !r.Allocated? ==> slots == old(slots) && next == old(next)
    {
      if name in slots {
        return DuplicateName(name);
      }
      if next == MAX_SLOTS {
        return LimitExceeded(MAX_SLOTS);
      }
      var idx := next;
      next := next + 1;
      slots := slots[name := idx];
      names := names + [name];
      r := Allocated(idx);
    }

    /** `get` and `name_of` are inverse to each other. */
    function Get(name: string): (r: Option<nat>)
      requires Valid()
      reads this
      ensures forall i: nat :: i < |names| ==> (r == Some(i) <==> names[i] == name)
      ensures r.Some? ==> r.value < |names|
    {
      if name in slots then Some(slots[name]) else None
    }

    function NameOf(index: nat): (r: Option<string>)
      requires Valid()
      reads this
      ensures r.Some? <==> index < |slots|
      ensures r.Some? ==> Get(r.value) == Some(index)
    {
      if index < |names| then Some(names[index]) else None
    }

    method CreateSlotArray() returns (a: array<SlotValue>)
      requires Valid()
      ensures fresh(a) && a.Length == |slots| == |names|
      ensures forall i :: 0 <= i < a.Length ==> a[i] == Null
      ensures forall name :: name in slots ==> slots[name] < a.Length
    {
      a := new SlotValue[|slots|](i => Null);
    }

    /** All names with their indices, in allocation order. */
    method Iter() returns (pairs: seq<(string, nat)>)
      requires Valid()
      ensures |pairs| == |names| && forall i :: 0 <= i < |pairs| ==> pairs[i] == (names[i], i)
    {
      pairs := [];
      for i := 0 to |names|
        invariant |pairs| == i && forall k :: 0 <= k < i ==> pairs[k] == (names[k], k)
      {
        pairs := pairs + [(names[i], slots[names[i]])];
      }
    }
  }

  /** Each requested name once, at its first request. */
  function FirstRequests(requests: seq<string>): seq<string> {
    if requests == [] then []
    else
      var front, last := FirstRequests(requests[..|requests| - 1]), requests[|requests| - 1];
      if last in front then front else front + [last]
  }

  function Take(names: seq<string>): seq<string> {
    if |names| <= MAX_SLOTS then names else names[..MAX_SLOTS]
  }

  /** A further request adds its name to those taken exactly when it is new and there is room. */
  lemma OneMoreRequest(requests: seq<string>, name: string)
    ensures var taken := Take(FirstRequests(requests));
            Take(FirstRequests(requests + [name]))
            == if name in taken || |taken| == MAX_SLOTS then taken else taken + [name]
  {
    assert (requests + [name])[..|requests|] == requests;
    var firsts := FirstRequests(requests);
    if |firsts| > MAX_SLOTS && name !in firsts {
      assert (firsts + [name])[..MAX_SLOTS] == firsts[..MAX_SLOTS];
    }
  }

  lemma NextRequest(requests: seq<string>, i: nat)
    requires i < |requests|
    ensures var taken := Take(FirstRequests(requests[..i]));
            Take(FirstRequests(requests[..i + 1]))
            == if requests[i] in taken || |taken| == MAX_SLOTS then taken else taken + [requests[i]]
  {
    OneMoreRequest(requests[..i], requests[i]);
    assert requests[..i] + [requests[i]] == requests[..i + 1];
  }

  /** Over any run of requests the allocated names are the first requests, up to the limit. */
  method AllocAll(requests: seq<string>) returns (a: SlotAllocator)
    ensures a.Valid() && a.names == Take(FirstRequests(requests))
  {
    a := new SlotAllocator();
    for i := 0 to |requests|
      invariant a.Valid() && fresh(a) && a.names == Take(FirstRequests(requests[..i]))
    {
      NextRequest(requests, i);
      var _ := a.Alloc(requests[i]);
    }
    assert requests[..|requests|] == requests;
  }
}
