/** What one fan-out write promises, independently of any heap state.

    A write is forwarded to the members of the registry in some traversal order
    (the language leaves map iteration order unspecified, so the order is an
    input here). This module defines the result the multiplexer returns, which
    members the traversal reaches, and how many times a given destination is
    handed the bytes, and proves the properties of the two error policies.
 */
module Fanout {

  datatype Option<T> = None | Some(value: T)

  /** The error policy, fixed when the multiplexer is made: errors of members
      are swallowed (`Ignore`) or surfaced and halt the traversal (`Propagate`). */
  datatype Policy = Ignore | Propagate

  /** How an abstract destination answers a write: it takes all the bytes,
      takes only the first `limit` of them without reporting an error, or fails
      with the given cause and takes nothing. */
  datatype Behavior = Accept | Partial(limit: nat) | Fail(cause: string)

  /** The errors a write can surface: the registry was empty, or the member
      under `index` failed with `cause`. */
  datatype MuxError = NoWriters | MemberFailed(index: string, cause: string)

  /** The pair a write returns: a byte count and an optional error. */
  datatype Written = Written(n: nat, err: Option<MuxError>)

  predicate Fails(b: Behavior) {
    b.Fail?
  }

  /** The bytes of `p` a destination with behaviour `b` keeps. */
  function Accepted<B>(b: Behavior, p: seq<B>): (r: seq<B>)
    ensures |r| <= |p| && r == p[..|r|]
    ensures b.Accept? ==> r == p
    ensures Fails(b) ==> r == []
  {
    match b
    case Accept => p
    case Partial(k) => if k < |p| then p[..k] else p
    case Fail(_) => []
  }

  /** `order` lists every key of `keys` exactly once: its entries are keys,
      and it holds each key as often as the set does. */
  ghost predicate Enumerates(order: seq<string>, keys: set<string>) {
    && (forall i | 0 <= i < |order| :: order[i] in keys)
    && multiset(order) == multiset(keys)
  }

  /** An enumeration lists every key. */
  lemma EnumerationCovers(order: seq<string>, keys: set<string>)
    requires Enumerates(order, keys)
    ensures forall k | k in keys :: k in order
  {
    forall k | k in keys ensures k in order {
      assert k in multiset(keys);
    }
  }

  /** An enumeration lists no key twice. */
  lemma EnumerationDistinct(order: seq<string>, keys: set<string>)
    requires Enumerates(order, keys)
    ensures forall i, j | 0 <= i < j < |order| :: order[i] != order[j]
  {
    forall i, j | 0 <= i < j < |order| ensures order[i] != order[j] {
      if order[i] == order[j] {
        RepeatedEntryCount(order, i, j);
      }
    }
  }

  /** An entry listed at two positions occurs at least twice. */
  lemma RepeatedEntryCount(order: seq<string>, i: nat, j: nat)
    requires i < j < |order| && order[i] == order[j]
    ensures multiset(order)[order[i]] >= 2
  {
    assert order == order[..j] + order[j..];
    assert order[..j][i] == order[i] && order[j..][0] == order[i];
  }

  /** Every finite registry has a traversal order. */
  lemma {:induction false} EnumerationExists(keys: set<string>) returns (order: seq<string>)
    ensures Enumerates(order, keys)
    decreases |keys|
  {
    if keys == {} {
      order := [];
    } else {
      var k :| k in keys;
      var rest := EnumerationExists(keys - {k});
      order := rest + [k];
      assert keys == (keys - {k}) + {k};
      assert multiset(keys) == multiset(keys - {k}) + multiset({k});
    }
  }

  /** The position in `order` of the first member whose write fails, or
      `|order|` when none fails. */
  function FirstFailure(beh: map<string, Behavior>, order: seq<string>): (k: nat)
    requires forall i | 0 <= i < |order| :: order[i] in beh
    ensures k <= |order|
    ensures forall j | 0 <= j < k :: !Fails(beh[order[j]])
    ensures k < |order| ==> Fails(beh[order[k]])
    decreases |order|
  {
    if order == [] then 0
    else if Fails(beh[order[0]]) then 0
    else 1 + FirstFailure(beh, order[1..])
  }

  /** The first failure is at the end of a traversal exactly when no member
      of the registry fails. */
  lemma NoFailureIffNoneFails(beh: map<string, Behavior>, order: seq<string>)
    requires Enumerates(order, beh.Keys)
    ensures FirstFailure(beh, order) == |order| <==> forall h | h in beh :: !Fails(beh[h])
  {
    EnumerationCovers(order, beh.Keys);
    var k := FirstFailure(beh, order);
    if k == |order| {
      forall h | h in beh ensures !Fails(beh[h]) {
        var j :| 0 <= j < |order| && order[j] == h;
      }
    }
  }

  /** The result of a write of `len` bytes, traversing `order`. The count
      stays `len` when a member fails under `Propagate`: only the empty
      registry resets it. */
  function Outcome(policy: Policy, beh: map<string, Behavior>, order: seq<string>, len: nat): (r: Written)
    requires forall i | 0 <= i < |order| :: order[i] in beh
    ensures r.n == (if r.err == Some(NoWriters) then 0 else len)
    ensures r.err.Some? ==> policy.Propagate?
  {
    if policy.Propagate? && |beh| == 0 then
      Written(0, Some(NoWriters))
    else if policy.Propagate? && FirstFailure(beh, order) < |order| then
      var h := order[FirstFailure(beh, order)];
      Written(len, Some(MemberFailed(h, beh[h].cause)))
    else
      Written(len, None)
  }

  /** Under `Ignore` a write always succeeds with the full count, also on an
      empty registry and whatever the members do. */
  lemma IgnoreAlwaysSucceeds(beh: map<string, Behavior>, order: seq<string>, len: nat)
    requires forall i | 0 <= i < |order| :: order[i] in beh
    ensures Outcome(Ignore, beh, order, len) == Written(len, None)
  {
  }

  /** Under `Propagate` an empty registry is an error with count 0. */
  lemma PropagateEmptyIsNoWriters(order: seq<string>, len: nat)
    requires Enumerates(order, {})
    ensures Outcome(Propagate, map[], order, len) == Written(0, Some(NoWriters))
  {
  }

  /** Under `Propagate` a write succeeds exactly when the registry is not
      empty and no member fails; it then returns the full count. */
  lemma PropagateSucceedsIffAllSucceed(beh: map<string, Behavior>, order: seq<string>, len: nat)
    requires Enumerates(order, beh.Keys)
    ensures Outcome(Propagate, beh, order, len).err.None?
        <==> |beh| > 0 && forall h | h in beh :: !Fails(beh[h])
    ensures Outcome(Propagate, beh, order, len).err.None? ==> Outcome(Propagate, beh, order, len).n == len
  {
    NoFailureIffNoneFails(beh, order);
  }

  /** Under `Propagate` a member failure names the first failing member in
      the traversal and its cause; every member before it succeeded, and the
      count is still the full `len`. */
  lemma PropagateNamesFirstFailure(beh: map<string, Behavior>, order: seq<string>, len: nat, h: string, c: string)
    requires Enumerates(order, beh.Keys)
    requires Outcome(Propagate, beh, order, len).err == Some(MemberFailed(h, c))
    ensures Outcome(Propagate, beh, order, len).n == len
    ensures h in beh && beh[h] == Fail(c)
    ensures exists k | 0 <= k < |order| :: order[k] == h && forall j | 0 <= j < k :: !Fails(beh[order[j]])
  {
    var k := FirstFailure(beh, order);
    assert k < |order| && order[k] == h;
  }

  /** The traversal order decides at most which failing member a failure
      names: the count, and whether the write fails, are the same for every
      order. */
  lemma OutcomeOrderIndependent(policy: Policy, beh: map<string, Behavior>, o1: seq<string>, o2: seq<string>, len: nat)
    requires Enumerates(o1, beh.Keys) && Enumerates(o2, beh.Keys)
    ensures Outcome(policy, beh, o1, len).n == Outcome(policy, beh, o2, len).n
    ensures Outcome(policy, beh, o1, len).err.None? <==> Outcome(policy, beh, o2, len).err.None?
  {
    NoFailureIffNoneFails(beh, o1);
    NoFailureIffNoneFails(beh, o2);
  }

  /** The count a member returns is never looked at: turning a member that
      takes everything into one that takes only a prefix without error leaves
      the result unchanged. */
  lemma {:induction false} FirstFailureIgnoresCounts(beh: map<string, Behavior>, order: seq<string>, h: string, k: nat)
    requires forall i | 0 <= i < |order| :: order[i] in beh
    requires h in beh && beh[h].Accept?
    ensures FirstFailure(beh[h := Partial(k)], order) == FirstFailure(beh, order)
    decreases |order|
  {
    if order != [] {
      FirstFailureIgnoresCounts(beh, order[1..], h, k);
    }
  }

  lemma OutcomeIgnoresCounts(policy: Policy, beh: map<string, Behavior>, order: seq<string>, len: nat, h: string, k: nat)
    requires forall i | 0 <= i < |order| :: order[i] in beh
    requires h in beh && beh[h].Accept?
    ensures Outcome(policy, beh[h := Partial(k)], order, len) == Outcome(policy, beh, order, len)
  {
    FirstFailureIgnoresCounts(beh, order, h, k);
    var beh' := beh[h := Partial(k)];
    assert |beh'| == |beh| by { assert beh'.Keys == beh.Keys; }
  }

  /** How many members a write calls: all of them under `Ignore`; under
      `Propagate` those up to and including the first failing one. */
  function Reached(policy: Policy, beh: map<string, Behavior>, order: seq<string>): (r: nat)
    requires forall i | 0 <= i < |order| :: order[i] in beh
    ensures r <= |order|
    ensures policy.Ignore? ==> r == |order|
    ensures policy.Propagate? ==> FirstFailure(beh, order) < r || r == |order|
    ensures policy.Propagate? && r > 0 ==> r - 1 <= FirstFailure(beh, order)
  {
    if policy.Ignore? then |order|
    else var k := FirstFailure(beh, order); if k < |order| then k + 1 else k
  }

  /** What destination `x` is handed when the handles `hs` of `m` are visited
      in turn and every visit to a handle holding `x` hands it `r`. A
      destination registered under several handles is handed `r` once per
      handle. */
  function Fed<T(==), B>(m: map<string, T>, hs: seq<string>, x: T, r: seq<B>): (fed: seq<B>)
  {
    if hs == [] then []
    else Fed(m, hs[..|hs| - 1], x, r) + (if hs[|hs| - 1] in m && m[hs[|hs| - 1]] == x then r else [])
  }

  /** Visiting one more handle appends what that handle hands `x`. */
  lemma FedExtend<T, B>(m: map<string, T>, order: seq<string>, i: nat, x: T, r: seq<B>)
    requires i < |order|
    ensures Fed(m, order[..i + 1], x, r)
         == Fed(m, order[..i], x, r) + (if order[i] in m && m[order[i]] == x then r else [])
  {
    assert order[..i + 1][..i] == order[..i];
  }

  /** Two distinct keys, in either order, enumerate the pair. */
  lemma EnumeratePair(a: string, b: string)
    requires a != b
    ensures Enumerates([a, b], {a, b})
  {
    calc {
      multiset({a, b});
      multiset({a} + {b});
      multiset({a}) + multiset({b});
      multiset([a]) + multiset([b]);
      { assert [a, b] == [a] + [b]; }
      multiset([a, b]);
    }
  }

  /** A traversal of two handles hands `x` what each of them hands it. */
  lemma FedPair<T, B>(m: map<string, T>, a: string, b: string, x: T, r: seq<B>)
    ensures Fed(m, [a, b], x, r)
         == (if a in m && m[a] == x then r else []) + (if b in m && m[b] == x then r else [])
  {
    assert [a, b][..1] == [a] && [a][..0] == [];
    assert Fed(m, [a], x, r) == (if a in m && m[a] == x then r else []);
  }

  /** No two handles of `m` hold the same destination. */
  ghost predicate Injective<T>(m: map<string, T>) {
    forall a, b | a in m && b in m && a != b :: m[a] != m[b]
  }

  /** With one destination per handle, a prefix of a traversal hands the
      destination under `order[j]` the bytes exactly once if the prefix
      reaches it and nothing otherwise. */
  lemma {:induction false} FedPrefix<T, B>(m: map<string, T>, order: seq<string>, j: nat, c: nat, r: seq<B>)
    requires Enumerates(order, m.Keys) && Injective(m)
    requires j < |order| && c <= |order|
    ensures Fed(m, order[..c], m[order[j]], r) == if j < c then r else []
    decreases c
  {
    EnumerationDistinct(order, m.Keys);
    if c > 0 {
      assert order[..c][..c - 1] == order[..c - 1];
      FedPrefix(m, order, j, c - 1, r);
      if c - 1 != j {
        assert order[c - 1] != order[j];
      }
    }
  }

  /** With one destination per handle, a write hands each member the bytes
      exactly once under `Ignore`; under `Propagate` exactly once when the
      member comes no later than the first failure, and nothing when it comes
      after it. */
  lemma DeliveredOnceOrNever<T, B>(policy: Policy, m: map<string, T>, beh: map<string, Behavior>, order: seq<string>, j: nat, r: seq<B>)
    requires beh.Keys == m.Keys && Enumerates(order, m.Keys) && Injective(m)
    requires j < |order|
    ensures Fed(m, order[..Reached(policy, beh, order)], m[order[j]], r)
         == if policy.Ignore? || j <= FirstFailure(beh, order) then r else []
  {
    FedPrefix(m, order, j, Reached(policy, beh, order), r);
  }
}
