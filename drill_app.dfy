/**
 * The backend's in-memory drill telemetry: one shared drill state
 * `{path, bit, md}` that updates merge into field by field, and the list of
 * subscribed websocket clients that every update is broadcast to.  A client
 * is known by an identity; sending to it either succeeds or fails, and the
 * outcomes of one broadcast arrive as a sequence of flags, one per client.
 */
module DrillApp {
  import opened Wrappers

  /** A [lon, lat, height] point. */
  datatype Point = Point(lon: real, lat: real, height: real)

  /** The stored trajectory, the current bit position (initially None) and the measured depth. */
  datatype DrillState = DrillState(path: seq<Point>, bit: Option<Point>, md: real)

  /** An update body; a missing key and an explicit null are both None. */
  datatype Payload = Payload(bit: Option<Point>, md: Option<real>, path: Option<seq<Point>>)

  /** `{"type": ..., "payload": ...}` as sent to the clients. */
  datatype Message = Message(kind: string, payload: DrillState)

  /** The identity of one accepted websocket connection. */
  type ClientId = nat

  const DrillStateKind: string := "drill_state"

  /** The state the server starts with. */
  const InitialState: DrillState := DrillState([], None, 0.0)

  /** Python truthiness of the payload's path: present and non-empty. */
  predicate PathGiven(path: Option<seq<Point>>) {
    path.Some? && path.value != []
  }

  /**
   * The state after merging an update: `bit` and `md` are taken from the
   * payload whenever they are not None, `path` only when it is non-empty.
   */
  function Merge(s: DrillState, p: Payload): (r: DrillState)
    ensures p.bit.Some? ==> r.bit == p.bit
    ensures p.bit.None? ==> r.bit == s.bit
    ensures p.md.Some? ==> r.md == p.md.value
    ensures p.md.None? ==> r.md == s.md
    ensures PathGiven(p.path) ==> r.path == p.path.value
    ensures !PathGiven(p.path) ==> r.path == s.path
  {
    DrillState(
      if PathGiven(p.path) then p.path.value else s.path,
      if p.bit.Some? then p.bit else s.bit,
      if p.md.Some? then p.md.value else s.md)
  }

  /** Applying the same update twice is the same as applying it once. */
  lemma MergeIdempotent(s: DrillState, p: Payload)
    ensures Merge(Merge(s, p), p) == Merge(s, p)
  {
  }

  /** An update that carries nothing usable leaves the state as it is. */
  lemma MergeNothing(s: DrillState, path: Option<seq<Point>>)
    requires !PathGiven(path)
    ensures Merge(s, Payload(None, None, path)) == s
  {
  }

  /** A later update overrides an earlier one in every field it carries. */
  lemma MergeLaterWins(s: DrillState, p: Payload, q: Payload)
    ensures var r := Merge(Merge(s, p), q);
      && r.bit == (if q.bit.Some? then q.bit else Merge(s, p).bit)
      && r.md == (if q.md.Some? then q.md.value else Merge(s, p).md)
      && r.path == (if PathGiven(q.path) then q.path.value else Merge(s, p).path)
  {
  }

  predicate NoDuplicates(s: seq<ClientId>) {
    forall i, j :: 0 <= i < j < |s| ==> s[i] != s[j]
  }

  /** `list.index(x)`: the position of the first occurrence of `x`. */
  function IndexOf(s: seq<ClientId>, x: ClientId): (i: nat)
    requires x in s
    ensures i < |s| && s[i] == x && x !in s[..i]
  {
    if s[0] == x then 0
    else
      var i := IndexOf(s[1..], x);
      assert s[..i + 1] == [s[0]] + s[1..][..i];
      i + 1
  }

  /** `list.remove(x)` with the ValueError for a missing element ignored. */
  function RemoveFirst(s: seq<ClientId>, x: ClientId): (r: seq<ClientId>)
    ensures x !in s ==> r == s
    ensures x in s ==> r == s[..IndexOf(s, x)] + s[IndexOf(s, x) + 1..]
  {
    if s == [] then []
    else if s[0] == x then s[1..]
    else
      var t := RemoveFirst(s[1..], x);
      if x in s[1..] then
        RemoveFirstStep(s, x, t);
        [s[0]] + t
      else
        assert s == [s[0]] + s[1..];
        [s[0]] + t
  }

  /** Removal past a head that differs from `x` happens in the tail. */
  lemma RemoveFirstStep(s: seq<ClientId>, x: ClientId, t: seq<ClientId>)
    requires s != [] && s[0] != x && x in s[1..]
    requires t == s[1..][..IndexOf(s[1..], x)] + s[1..][IndexOf(s[1..], x) + 1..]
    ensures [s[0]] + t == s[..IndexOf(s, x)] + s[IndexOf(s, x) + 1..]
  {
    var i := IndexOf(s[1..], x);
    assert IndexOf(s, x) == i + 1;
    assert s[..i + 1] == [s[0]] + s[1..][..i];
    assert s[i + 2..] == s[1..][i + 1..];
  }

  /** The elements of `s` that are not in `gone`, in their original order. */
  function Without(s: seq<ClientId>, gone: seq<ClientId>): (r: seq<ClientId>)
    ensures |r| <= |s|
  {
    if s == [] then []
    else (if s[0] in gone then [] else [s[0]]) + Without(s[1..], gone)
  }

  /** What is left is exactly what was there and is not gone. */
  lemma {:induction false} WithoutMembers(s: seq<ClientId>, gone: seq<ClientId>, y: ClientId)
    ensures y in Without(s, gone) <==> y in s && y !in gone
  {
    if s != [] {
      assert s == [s[0]] + s[1..];
      WithoutMembers(s[1..], gone, y);
    }
  }

  /** Removing elements that do not occur keeps the list. */
  lemma {:induction false} WithoutAbsent(s: seq<ClientId>, gone: seq<ClientId>)
    requires forall k :: 0 <= k < |s| ==> s[k] !in gone
    ensures Without(s, gone) == s
  {
    if s != [] {
      WithoutAbsent(s[1..], gone);
      assert s == [s[0]] + s[1..];
    }
  }

  /** Only the members of `gone` that occur in `s` matter. */
  lemma {:induction false} WithoutAgree(s: seq<ClientId>, g1: seq<ClientId>, g2: seq<ClientId>)
    requires forall k :: 0 <= k < |s| ==> (s[k] in g1 <==> s[k] in g2)
    ensures Without(s, g1) == Without(s, g2)
  {
    if s != [] {
      WithoutAgree(s[1..], g1, g2);
    }
  }

  /** On a list without duplicates, removing the first occurrence removes every occurrence. */
  lemma {:induction false} RemoveFirstIsWithout(s: seq<ClientId>, x: ClientId)
    requires NoDuplicates(s)
    ensures RemoveFirst(s, x) == Without(s, [x])
  {
    if s != [] {
      if s[0] == x {
        forall k | 0 <= k < |s[1..]| ensures s[1..][k] !in [x] {
          assert s[1..][k] == s[k + 1];
        }
        WithoutAbsent(s[1..], [x]);
      } else {
        RemoveFirstIsWithout(s[1..], x);
      }
    }
  }

  /** Removing the members of `gone` and then `x` is removing the members of gone + [x]. */
  lemma {:induction false} WithoutThenOne(s: seq<ClientId>, gone: seq<ClientId>, x: ClientId)
    ensures Without(Without(s, gone), [x]) == Without(s, gone + [x])
  {
    if s != [] {
      WithoutThenOne(s[1..], gone, x);
      var rest := Without(s[1..], gone);
      assert s[0] in gone + [x] <==> s[0] in gone || s[0] == x;
      if s[0] in gone {
        assert Without(s, gone) == rest;
        assert Without(s, gone + [x]) == Without(s[1..], gone + [x]);
      } else {
        assert Without(s, gone) == [s[0]] + rest;
        assert ([s[0]] + rest)[1..] == rest;
        assert Without([s[0]] + rest, [x]) == (if s[0] == x then [] else [s[0]]) + Without(rest, [x]);
      }
    }
  }

  /** A sub-list of a list without duplicates has none. */
  lemma {:induction false} WithoutNoDuplicates(s: seq<ClientId>, gone: seq<ClientId>)
    requires NoDuplicates(s)
    ensures NoDuplicates(Without(s, gone))
  {
    if s != [] {
      WithoutNoDuplicates(s[1..], gone);
      assert s[0] !in s[1..] by {
        forall k | 0 <= k < |s[1..]| ensures s[1..][k] != s[0] {
          assert s[1..][k] == s[k + 1];
        }
      }
      WithoutMembers(s[1..], gone, s[0]);
    }
  }

  /** One pass of the removal loop: removing the next stale client extends the removed prefix. */
  lemma PruneStep(orig: seq<ClientId>, stale: seq<ClientId>, i: nat, cur: seq<ClientId>)
    requires i < |stale| && NoDuplicates(cur) && cur == Without(orig, stale[..i])
    ensures RemoveFirst(cur, stale[i]) == Without(orig, stale[..i + 1])
    ensures NoDuplicates(RemoveFirst(cur, stale[i]))
  {
    RemoveFirstIsWithout(cur, stale[i]);
    WithoutThenOne(orig, stale[..i], stale[i]);
    assert stale[..i + 1] == stale[..i] + [stale[i]];
    WithoutNoDuplicates(cur, [stale[i]]);
  }

  /** The clients whose send failed, in list order: the `stale_clients` of a broadcast. */
  function Failed(clients: seq<ClientId>, sent: seq<bool>): (r: seq<ClientId>)
    requires |sent| == |clients|
    ensures |r| <= |clients|
    ensures (forall k :: 0 <= k < |sent| ==> sent[k]) ==> r == []
  {
    if clients == [] then []
    else (if sent[0] then [] else [clients[0]]) + Failed(clients[1..], sent[1..])
  }

  /** The clients whose send succeeded, in list order. */
  function Survivors(clients: seq<ClientId>, sent: seq<bool>): (r: seq<ClientId>)
    requires |sent| == |clients|
    ensures |r| + |Failed(clients, sent)| == |clients|
    ensures (forall k :: 0 <= k < |sent| ==> sent[k]) ==> r == clients
  {
    if clients == [] then []
    else (if sent[0] then [clients[0]] else []) + Survivors(clients[1..], sent[1..])
  }

  /** A client is among the failed ones exactly when one of its sends failed. */
  lemma {:induction false} FailedMembers(clients: seq<ClientId>, sent: seq<bool>, y: ClientId)
    requires |sent| == |clients|
    ensures y in Failed(clients, sent) <==> exists k :: 0 <= k < |clients| && clients[k] == y && !sent[k]
  {
    if clients != [] {
      FailedMembers(clients[1..], sent[1..], y);
      if y in Failed(clients[1..], sent[1..]) {
        var k :| 0 <= k < |clients[1..]| && clients[1..][k] == y && !sent[1..][k];
        assert clients[k + 1] == y && !sent[k + 1];
      }
      if exists k :: 0 <= k < |clients| && clients[k] == y && !sent[k] {
        var k :| 0 <= k < |clients| && clients[k] == y && !sent[k];
        if k > 0 {
          assert clients[1..][k - 1] == y && !sent[1..][k - 1];
        }
      }
    }
  }

  /** Survivors are exactly the clients whose own send succeeded. */
  lemma {:induction false} SurvivorsMembers(clients: seq<ClientId>, sent: seq<bool>, k: nat)
    requires |sent| == |clients| && NoDuplicates(clients) && k < |clients|
    ensures clients[k] in Survivors(clients, sent) <==> sent[k]
  {
    var rest := Survivors(clients[1..], sent[1..]);
    if k == 0 {
      assert clients[0] !in clients[1..] by {
        forall m | 0 <= m < |clients[1..]| ensures clients[1..][m] != clients[0] {
          assert clients[1..][m] == clients[m + 1];
        }
      }
      SurvivorsWithin(clients[1..], sent[1..], clients[0]);
    } else {
      SurvivorsMembers(clients[1..], sent[1..], k - 1);
      assert clients[1..][k - 1] == clients[k] && sent[1..][k - 1] == sent[k];
      assert clients[0] != clients[k];
    }
  }

  /** Every survivor was a client. */
  lemma {:induction false} SurvivorsWithin(clients: seq<ClientId>, sent: seq<bool>, y: ClientId)
    requires |sent| == |clients|
    ensures y in Survivors(clients, sent) ==> y in clients
  {
    if clients != [] {
      SurvivorsWithin(clients[1..], sent[1..], y);
    }
  }

  /**
   * On a list without duplicates, taking every failed client out of the list
   * leaves exactly the survivors.
   */
  lemma {:induction false} PruneFailed(clients: seq<ClientId>, sent: seq<bool>)
    requires |sent| == |clients| && NoDuplicates(clients)
    ensures Without(clients, Failed(clients, sent)) == Survivors(clients, sent)
  {
    if clients != [] {
      var h, t, st := clients[0], clients[1..], sent[1..];
      var f := Failed(clients, sent);
      assert NoDuplicates(t) by {
        forall i, j | 0 <= i < j < |t| ensures t[i] != t[j] {
          assert t[i] == clients[i + 1] && t[j] == clients[j + 1];
        }
      }
      forall k | 0 <= k < |t| ensures t[k] in f <==> t[k] in Failed(t, st) {
        assert t[k] == clients[k + 1] && t[k] != h;
      }
      WithoutAgree(t, f, Failed(t, st));
      PruneFailed(t, st);
      FailedMembers(clients, sent, h);
      if exists k :: 0 <= k < |clients| && clients[k] == h && !sent[k] {
        var k :| 0 <= k < |clients| && clients[k] == h && !sent[k];
        assert k == 0;
      }
    }
  }

  /** One step of the walk over the clients. */
  lemma FailedStep(clients: seq<ClientId>, sent: seq<bool>, i: nat)
    requires |sent| == |clients| && i < |clients|
    ensures Failed(clients[i..], sent[i..]) ==
      (if sent[i] then [] else [clients[i]]) + Failed(clients[i + 1..], sent[i + 1..])
  {
    assert clients[i..][1..] == clients[i + 1..] && sent[i..][1..] == sent[i + 1..];
  }

  /**
   * The first loop of `broadcast_drill_state`: walk the clients in order and
   * collect those whose send failed.
   */
  method CollectStale(clients: seq<ClientId>, sent: seq<bool>) returns (stale: seq<ClientId>)
    requires |sent| == |clients|
    ensures stale == Failed(clients, sent)
  {
    stale := [];
    var i := 0;
    while i < |clients|
      invariant 0 <= i <= |clients|
      invariant Failed(clients, sent) == stale + Failed(clients[i..], sent[i..])
    {
      ghost var rest := Failed(clients[i + 1..], sent[i + 1..]);
      FailedStep(clients, sent, i);
      if !sent[i] {
        assert stale + ([clients[i]] + rest) == (stale + [clients[i]]) + rest;
        stale := stale + [clients[i]];
      } else {
        assert [] + rest == rest;
      }
      i := i + 1;
    }
    assert Failed(clients[i..], sent[i..]) == [];
    assert stale + [] == stale;
  }

  /** The drill state and the subscribed clients, as the module-level globals hold them. */
  class DrillHub {
    var state: DrillState
    var clients: seq<ClientId>

    /** Every client is one accepted connection, listed once. */
    ghost predicate Valid()
      reads this
    {
      NoDuplicates(clients)
    }

    constructor ()
      ensures Valid()
      ensures state == InitialState && clients == []
    {
      state := InitialState;
      clients := [];
    }

    /**
     * `ws_drill` after accepting a connection: append it to the list and
     * greet it with the current state.
     */
    method Subscribe(c: ClientId) returns (greeting: Message)
      requires Valid() && c !in clients
      modifies this
      ensures Valid()
      ensures clients == old(clients) + [c]
      ensures state == old(state)
      ensures greeting == Message(DrillStateKind, state)
    {
      clients := clients + [c];
      greeting := Message(DrillStateKind, state);
    }

    /** `ws_drill` on WebSocketDisconnect: drop the client, if it is still listed. */
    method Disconnect(c: ClientId)
      requires Valid()
      modifies this
      ensures Valid()
      ensures clients == RemoveFirst(old(clients), c)
      ensures clients == Without(old(clients), [c])
      ensures c !in clients
      ensures c !in old(clients) ==> clients == old(clients)
      ensures state == old(state)
    {
      RemoveFirstIsWithout(clients, c);
      WithoutNoDuplicates(clients, [c]);
      WithoutMembers(clients, [c], c);
      clients := RemoveFirst(clients, c);
    }

    /**
     * The second loop of `broadcast_drill_state`: remove each stale client,
     * ignoring those that are no longer listed.
     */
    method Prune(stale: seq<ClientId>)
      requires Valid()
      modifies this
      ensures Valid()
      ensures clients == Without(old(clients), stale)
      ensures (forall k :: 0 <= k < |old(clients)| ==> old(clients)[k] !in stale) ==> clients == old(clients)
      ensures state == old(state)
    {
      if forall k :: 0 <= k < |clients| ==> clients[k] !in stale {
        WithoutAbsent(clients, stale);
      }
      WithoutAbsent(clients, []);
      var i := 0;
      while i < |stale|
        invariant 0 <= i <= |stale|
        invariant Valid()
        invariant clients == Without(old(clients), stale[..i])
        invariant state == old(state)
      {
        PruneStep(old(clients), stale, i, clients);
        clients := RemoveFirst(clients, stale[i]);
        i := i + 1;
      }
      assert stale[..i] == stale;
    }

    /**
     * `broadcast_drill_state`: with no clients nothing happens; otherwise the
     * state message is sent to every client and the ones whose send failed
     * are removed, the rest keeping their order.
     */
    method Broadcast(sent: seq<bool>) returns (message: Option<Message>)
      requires Valid() && |sent| == |clients|
      modifies this
      ensures Valid()
      ensures state == old(state)
      ensures old(clients) == [] ==> message == None && clients == []
      ensures old(clients) != [] ==> message == Some(Message(DrillStateKind, state))
      ensures clients == Survivors(old(clients), sent)
      ensures forall k :: 0 <= k < |old(clients)| ==> (old(clients)[k] in clients <==> sent[k])
    {
      if clients == [] {
        return None;
      }
      message := Some(Message(DrillStateKind, state));
      var stale := CollectStale(clients, sent);
      PruneFailed(clients, sent);
      forall k | 0 <= k < |clients| ensures clients[k] in Survivors(clients, sent) <==> sent[k] {
        SurvivorsMembers(clients, sent, k);
      }
      Prune(stale);
    }

    /**
     * `update_drill`: merge the payload into the state, broadcast it, and
     * answer with the state as stored.
     */
    method UpdateDrill(p: Payload, sent: seq<bool>) returns (response: DrillState, message: Option<Message>)
      requires Valid() && |sent| == |clients|
      modifies this
      ensures Valid()
      ensures state == Merge(old(state), p)
      ensures response == state
      ensures message == (if old(clients) == [] then None else Some(Message(DrillStateKind, Merge(old(state), p))))
      ensures clients == Survivors(old(clients), sent)
    {
      if p.bit.Some? {
        state := state.(bit := p.bit);
      }
      if p.md.Some? {
        state := state.(md := p.md.value);
      }
      if PathGiven(p.path) {
        state := state.(path := p.path.value);
      }
      message := Broadcast(sent);
      response := state;
    }
  }
}
