/** The write multiplexer: a registry of destinations under opaque handles,
    with a write and a close that fan out to every member.
 */
module Mux {
  import opened Fanout
  import opened Handles

  newtype byte = b: int | 0 <= b < 256

  /** An abstract destination (a write-closer owned by whoever added it): the
      bytes it has taken so far, whether it has been closed, how it answers a
      write and what its close reports. */
  class Sink {
    var data: seq<byte>
    var closed: bool
    const behavior: Behavior
    const closeError: Option<string>

    constructor (behavior: Behavior, closeError: Option<string>)
      ensures data == [] && !closed
      ensures this.behavior == behavior && this.closeError == closeError
    {
      this.data := [];
      this.closed := false;
      this.behavior := behavior;
      this.closeError := closeError;
    }

    /** Takes the bytes its behaviour allows, and reports how many it took and
        the failure cause, if any. */
    method Write(p: seq<byte>) returns (n: nat, err: Option<string>)
      modifies this`data
      ensures data == old(data) + Accepted(behavior, p)
      ensures n == |Accepted(behavior, p)|
      ensures err.Some? <==> Fails(behavior)
      ensures err.Some? ==> err.value == behavior.cause
    {
      var taken := Accepted(behavior, p);
      data := data + taken;
      n := |taken|;
      err := if behavior.Fail? then Some(behavior.cause) else None;
    }

    method Close() returns (err: Option<string>)
      modifies this
      ensures closed && data == old(data)
      ensures err == closeError
    {
      closed := true;
      err := closeError;
    }
  }

  /** The behaviour of each registered destination. */
  function Behaviors(writers: map<string, Sink>): (beh: map<string, Behavior>)
    ensures beh.Keys == writers.Keys
    ensures forall h | h in writers :: beh[h] == writers[h].behavior
  {
    map h | h in writers :: writers[h].behavior
  }

  /** The first failing position of a traversal, read off the members
      themselves, and what a traversal stopped there adds up to: how many
      handles it reaches and the result of the write. */
  lemma TraversalOutcome(policy: Policy, members: map<string, Sink>, order: seq<string>, len: nat)
    requires forall k | 0 <= k < |order| :: order[k] in members
    requires policy.Ignore? || |members| > 0
    ensures var first := FirstFailure(Behaviors(members), order);
      && first <= |order|
      && (first < |order| ==> Fails(members[order[first]].behavior))
      && (forall j | 0 <= j < first :: !Fails(members[order[j]].behavior))
      && Reached(policy, Behaviors(members), order)
         == (if policy.Propagate? && first < |order| then first + 1 else |order|)
      && Outcome(policy, Behaviors(members), order, len)
         == Written(len, if policy.Propagate? && first < |order|
                         then Some(MemberFailed(order[first], members[order[first]].behavior.cause)) else None)
  {
    var beh := Behaviors(members);
    var first := FirstFailure(beh, order);
    forall j | 0 <= j < first ensures !Fails(members[order[j]].behavior) {
      assert beh[order[j]] == members[order[j]].behavior;
    }
  }

  /** `s` holds `before` followed by what it is fed when the handles `hs` of
      `m` are visited with the bytes `p`. */
  ghost predicate FedSoFar(s: Sink, before: seq<byte>, p: seq<byte>, m: map<string, Sink>, hs: seq<string>)
    reads s
  {
    s.data == before + Fed(m, hs, s, Accepted(s.behavior, p))
  }

  /** One visit of a traversal: hands `p` to the member under `order[i]` and
      reports its error. That destination takes its share of `p` and every
      other is left as it was, so each holds what it is fed by one more
      handle. */
  method Visit(writer: Sink, ghost members: map<string, Sink>, ghost order: seq<string>, ghost i: nat,
               p: seq<byte>, ghost start: map<string, seq<byte>>)
      returns (err: Option<string>)
    requires i < |order| && order[i] in members && members[order[i]] == writer
    requires members.Keys <= start.Keys
    requires forall h {:trigger start[h]} | h in members ::
      FedSoFar(members[h], start[h], p, members, order[..i])
    modifies writer`data
    ensures forall h {:trigger start[h]} | h in members ::
      FedSoFar(members[h], start[h], p, members, order[..i + 1])
    ensures err.Some? <==> Fails(writer.behavior)
    ensures err.Some? ==> err.value == writer.behavior.cause
  {
    var taken;
    taken, err := writer.Write(p);
    forall h | h in members
      ensures FedSoFar(members[h], start[h], p, members, order[..i + 1])
    {
      var s := members[h];
      var r := Accepted(s.behavior, p);
      var step: seq<byte> := if s == writer then r else [];
      assert old(s.data) == start[h] + Fed(members, order[..i], s, r);
      assert s.data == old(s.data) + step;
      FedExtend(members, order, i, s, r);
      assert start[h] + Fed(members, order[..i], s, r) + step == start[h] + (Fed(members, order[..i], s, r) + step);
    }
  }

  /** The traversal of a write: visits the handles of `order` in turn; under
      `Propagate` the first failing member, the one at position `first`, ends
      it. Returns how many handles were visited and the failure, if one ended
      the traversal. */
  method Deliver(policy: Policy, members: map<string, Sink>, p: seq<byte>, order: seq<string>, ghost first: nat)
      returns (reached: nat, failure: Option<MuxError>)
    requires forall k | 0 <= k < |order| :: order[k] in members
    requires first <= |order|
    requires first < |order| ==> Fails(members[order[first]].behavior)
    requires forall j | 0 <= j < first :: !Fails(members[order[j]].behavior)
    modifies members.Values`data
    ensures reached == if policy.Propagate? && first < |order| then first + 1 else |order|
    ensures failure == if policy.Propagate? && first < |order|
      then Some(MemberFailed(order[first], members[order[first]].behavior.cause)) else None
    ensures forall h | h in members ::
      FedSoFar(members[h], old(members[h].data), p, members, order[..reached])
  {
    ghost var start := map h | h in members :: members[h].data;
    var i := 0;
    while i < |order|
      invariant 0 <= i <= |order|
      invariant policy.Propagate? ==> i <= first
      invariant forall h {:trigger start[h]} | h in members ::
        FedSoFar(members[h], start[h], p, members, order[..i])
    {
      var index := order[i];
      var writer := members[index];
      var rerr := Visit(writer, members, order, i, p, start);
      if rerr.Some? && policy.Propagate? {
        failure := Some(MemberFailed(index, rerr.value));
        reached := i + 1;
        forall h | h in members
          ensures FedSoFar(members[h], old(members[h].data), p, members, order[..reached])
        {
          assert start[h] == old(members[h].data);
        }
        return;
      }
      i := i + 1;
    }
    reached := |order|;
    failure := None;
    forall h | h in members
      ensures FedSoFar(members[h], old(members[h].data), p, members, order[..reached])
    {
      assert start[h] == old(members[h].data);
    }
  }

  class WriteMux {
    /** The members, by handle. */
    var writers: map<string, Sink>
    /** The counter the next handle is drawn from. */
    var next: nat
    /** Every handle issued so far, including removed ones. */
    ghost var issued: set<string>
    /** The error policy, fixed at construction. */
    const policy: Policy

    /** Members are registered under issued handles, and every issued handle
        was drawn from a counter value below `next`. */
    ghost predicate Valid()
      reads this
    {
      && writers.Keys <= issued
      && forall h | h in issued :: HandleId(h) < next
    }

    /** An empty multiplexer that ignores member errors. */
    constructor New()
      ensures Valid() && policy == Ignore
      ensures writers == map[] && issued == {}
    {
      writers := map[];
      next := 1;
      issued := {};
      policy := Ignore;
    }

    /** An empty multiplexer that surfaces member errors. */
    constructor NewWithErrors()
      ensures Valid() && policy == Propagate
      ensures writers == map[] && issued == {}
    {
      writers := map[];
      next := 1;
      issued := {};
      policy := Propagate;
    }

    /** Registers `wc` under a handle never issued before and returns it. */
    method Add(wc: Sink) returns (index: string)
      requires Valid()
      modifies this
      ensures Valid()
      ensures index !in old(issued) && index !in old(writers)
      ensures writers == old(writers)[index := wc]
      ensures issued == old(issued) + {index}
    {
      index := Handle(next);
      HandleIdOfHandle(next);
      writers := writers[index := wc];
      issued := issued + {index};
      next := next + 1;
    }

    /** Unregisters the member under `index`; an absent or stale handle
        changes nothing. */
    method Remove(index: string)
      requires Valid()
      modifies this
      ensures Valid()
      ensures writers == old(writers) - {index}
      ensures index !in old(writers) ==> writers == old(writers)
      ensures issued == old(issued) && next == old(next)
    {
      writers := writers - {index};
    }

    /** Hands `p` to the members in the traversal order `order`. Under
        `Ignore` every member is called; under `Propagate` an empty registry is
        an error and the first failing member ends the traversal. The result is
        `Outcome`; each destination takes what its behaviour allows once per
        handle the traversal reaches it under; membership does not change. */
    method Write(p: seq<byte>, order: seq<string>) returns (n: nat, err: Option<MuxError>)
      requires Valid()
      requires Enumerates(order, writers.Keys)
      modifies writers.Values`data
      ensures Valid() && unchanged(this)
      ensures Written(n, err) == Outcome(policy, Behaviors(writers), order, |p|)
      ensures forall h | h in writers ::
        FedSoFar(writers[h], old(writers[h].data), p, writers, order[..Reached(policy, Behaviors(writers), order)])
      ensures forall h | h in writers :: writers[h].closed == old(writers[h].closed)
    {
      if policy.Propagate? && |writers| == 0 {
        assert Behaviors(writers) == map[];
        return 0, Some(NoWriters);
      }
      TraversalOutcome(policy, writers, order, |p|);
      var reached;
      reached, err := Deliver(policy, writers, p, order, FirstFailure(Behaviors(writers), order));
      n := |p|;
    }

    /** Closes every member, discarding what the closes report, and leaves
        the registry empty. Never fails; on an empty registry it does
        nothing. */
    method Close() returns (err: Option<MuxError>)
      requires Valid()
      modifies this, writers.Values
      ensures Valid()
      ensures err == None
      ensures writers == map[] && issued == old(issued) && next == old(next)
      ensures forall s | s in old(writers).Values :: s.closed && s.data == old(s.data)
    {
      while writers != map[]
        invariant Valid() && issued == old(issued) && next == old(next)
        invariant writers.Keys <= old(writers).Keys
        invariant forall h | h in writers :: writers[h] == old(writers)[h]
        invariant forall h | h in old(writers) && h !in writers :: old(writers)[h].closed
        invariant forall s | s in old(writers).Values :: s.data == old(s.data)
        decreases |writers|
      {
        var index :| index in writers;
        var writer := writers[index];
        var _ := writer.Close();
        writers := writers - {index};
      }
      err := None;
    }
  }
  /** A surfacing multiplexer with one healthy member takes a write whole
      and hands the member exactly the bytes; once closed, the multiplexer is
      empty and a write reports that there are no writers. A second close is
      harmless. */
  method WriteThenClose(p: seq<byte>)
      returns (n1: nat, e1: Option<MuxError>, got: seq<byte>, c1: Option<MuxError>, c2: Option<MuxError>,
               n2: nat, e2: Option<MuxError>)
    ensures n1 == |p| && e1 == None && got == p
    ensures c1 == None && c2 == None
    ensures n2 == 0 && e2 == Some(NoWriters)
  {
    var mux := new WriteMux.NewWithErrors();
    var buf := new Sink(Accept, None);
    var h := mux.Add(buf);
    assert mux.writers.Keys == {h};
    n1, e1 := mux.Write(p, [h]);
    assert [h][..1] == [h] && [h][..0] == [];
    assert Fed(mux.writers, [h], buf, p) == p;
    got := buf.data;
    c1 := mux.Close();
    c2 := mux.Close();
    n2, e2 := mux.Write(p, []);
  }

  /** Removing the only member of a surfacing multiplexer leaves it empty, so
      a following write reports that there are no writers, and the removed
      destination keeps what it had. */
  method WriteThenRemove(p: seq<byte>)
      returns (n1: nat, e1: Option<MuxError>, n2: nat, e2: Option<MuxError>, got: seq<byte>)
    ensures n1 == |p| && e1 == None
    ensures n2 == 0 && e2 == Some(NoWriters)
    ensures got == p
  {
    var mux := new WriteMux.NewWithErrors();
    var buf := new Sink(Accept, None);
    var h := mux.Add(buf);
    assert mux.writers.Keys == {h};
    n1, e1 := mux.Write(p, [h]);
    assert [h][..1] == [h] && [h][..0] == [];
    assert Fed(mux.writers, [h], buf, p) == p;
    mux.Remove(h);
    n2, e2 := mux.Write(p, []);
    got := buf.data;
  }
  /** A multiplexer that ignores member errors, with a failing member
      visited before a healthy one, takes a write whole: the failure does not
      stop the traversal, so the healthy member gets the bytes and the failing
      one nothing. */
  method IgnoreOneFailing(p: seq<byte>)
      returns (n: nat, err: Option<MuxError>, good: seq<byte>, bad: seq<byte>)
    ensures n == |p| && err == None
    ensures good == p && bad == []
  {
    var mux := new WriteMux.New();
    var g := new Sink(Accept, None);
    var b := new Sink(Fail("bad writer"), None);
    var hg := mux.Add(g);
    var hb := mux.Add(b);
    ghost var m := mux.writers;
    assert m == map[hg := g, hb := b] && hg != hb;
    EnumeratePair(hb, hg);
    FedPair(m, hb, hg, g, p);
    ghost var none: seq<byte> := [];
    FedPair(m, hb, hg, b, none);
    var order := [hb, hg];
    assert order[..|order|] == order;
    n, err := mux.Write(p, order);
    assert FedSoFar(g, [], p, m, order[..|order|]) && FedSoFar(b, [], p, m, order[..|order|]);
    assert Accepted(g.behavior, p) == p && Accepted(b.behavior, p) == none;
    assert g.data == [] + Fed(m, order, g, p);
    assert b.data == [] + Fed(m, order, b, none);
    good := g.data;
    bad := b.data;
  }
}
