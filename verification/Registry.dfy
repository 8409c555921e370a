/** The registry of connected clients: a singly linked list with the latest client in front. */
module Registry {
  import opened Wrappers
  import opened Commands
  import Protocol

  /** The stream to one client; writes succeed. */
  class OutStream {
    var text: string

    constructor ()
      ensures text == ""
    {
      text := "";
    }

    method Write(s: string)
      modifies this
      ensures text == old(text) + s
    {
      text := text + s;
    }
  }

  class ClientConn {
    const pid: int
    const username: string
    const role: Role
    const out: OutStream
    var next: ClientConn?

    constructor (pid: int, username: string, role: Role, out: OutStream)
      ensures this.pid == pid && this.username == username && this.role == role && this.out == out
    {
      this.pid, this.username, this.role, this.out, next := pid, username, role, out, null;
    }
  }

  ghost function OutsOf(spine: seq<ClientConn>): seq<OutStream> {
    seq(|spine|, (i: nat) requires i < |spine| => spine[i].out)
  }

  ghost function PidsOf(spine: seq<ClientConn>): seq<int> {
    seq(|spine|, (i: nat) requires i < |spine| => spine[i].pid)
  }

  /** The nodes without the first one of a process; the others stay the objects they are, in their order. */
  ghost function Drop(spine: seq<ClientConn>, pid: int): (rest: seq<ClientConn>)
    ensures forall node :: node in rest ==> node in spine
  {
    if |spine| == 0 then []
    else if spine[0].pid == pid then spine[1..]
    else [spine[0]] + Drop(spine[1..], pid)
  }

  lemma DropKeepsStreams(spine: seq<ClientConn>, pid: int)
    ensures forall i :: 0 <= i < |Drop(spine, pid)| ==> Drop(spine, pid)[i] in spine
    ensures forall i :: 0 <= i < |Drop(spine, pid)| ==> OutsOf(Drop(spine, pid))[i] in OutsOf(spine)
  {
    forall i | 0 <= i < |Drop(spine, pid)|
      ensures OutsOf(Drop(spine, pid))[i] in OutsOf(spine)
    {
      var k :| 0 <= k < |spine| && spine[k] == Drop(spine, pid)[i];
      assert OutsOf(spine)[k] == OutsOf(Drop(spine, pid))[i];
    }
  }

  lemma PidsOfTail(spine: seq<ClientConn>)
    requires |spine| > 0 && Distinct(PidsOf(spine))
    ensures Distinct(PidsOf(spine[1..])) && forall node :: node in spine[1..] ==> node.pid != spine[0].pid
  {
    var pids, rest := PidsOf(spine), PidsOf(spine[1..]);
    assert rest == pids[1..];
    forall i, j | 0 <= i < j < |rest|
      ensures rest[i] != rest[j]
    {
      assert pids[i + 1] == rest[i] && pids[j + 1] == rest[j];
    }
    forall node | node in spine[1..]
      ensures node.pid != spine[0].pid
    {
      var i :| 0 <= i < |spine[1..]| && spine[1..][i] == node;
      assert pids[0] != pids[i + 1];
    }
  }

  /** With one node per process, dropping one leaves exactly the nodes of the other processes. */
  lemma {:induction false} DropKeepsOthers(spine: seq<ClientConn>, pid: int)
    requires Distinct(PidsOf(spine))
    ensures forall node :: node in Drop(spine, pid) <==> node in spine && node.pid != pid
  {
    if |spine| == 0 {
    } else {
      PidsOfTail(spine);
      DropKeepsOthers(spine[1..], pid);
      SplitFirst(spine);
    }
  }

  lemma {:induction false} DropAt(spine: seq<ClientConn>, pid: int, i: nat)
    requires i < |spine| && spine[i].pid == pid
    requires forall k :: 0 <= k < i ==> spine[k].pid != pid
    ensures Drop(spine, pid) == WithoutAt(spine, i)
  {
    if i == 0 {
      WithoutFirst(spine);
    } else {
      DropAt(spine[1..], pid, i - 1);
      WithoutLater(spine, i);
    }
  }

  lemma {:induction false} NothingToDrop(spine: seq<ClientConn>, pid: int)
    requires forall k :: 0 <= k < |spine| ==> spine[k].pid != pid
    ensures Drop(spine, pid) == spine
  {
    if |spine| == 0 {
    } else {
      NothingToDrop(spine[1..], pid);
    }
  }

  function Copies(s: string, n: nat): string {
    if n == 0 then "" else Copies(s, n - 1) + s
  }

  /** The text of a stream after a payload has been sent down a list of streams. */
  ghost function Sent(before: string, payload: string, outs: seq<OutStream>, out: OutStream): string {
    before + Copies(payload, multiset(outs)[out])
  }

  lemma SentNext(before: string, payload: string, outs: seq<OutStream>, next: OutStream, out: OutStream)
    ensures Sent(before, payload, outs + [next], out) ==
            if out == next then Sent(before, payload, outs, out) + payload else Sent(before, payload, outs, out)
  {
    if out == next {
      var copies := Copies(payload, multiset(outs)[out]);
      assert Copies(payload, multiset(outs + [next])[out]) == copies + payload;
      Assoc(before, copies, payload);
    }
  }

  /** Distinct streams are registered once each. */
  lemma {:induction false} OnceEach(outs: seq<OutStream>)
    requires Distinct(outs)
    ensures forall out :: out in outs ==> multiset(outs)[out] == 1
  {
    if |outs| == 0 {
    } else {
      OnceEach(outs[1..]);
      assert outs == [outs[0]] + outs[1..];
    }
  }

  lemma SentOnce(before: string, payload: string, outs: seq<OutStream>, out: OutStream)
    requires Distinct(outs) && out in outs
    ensures Sent(before, payload, outs, out) == before + payload
  {
    OnceEach(outs);
    assert Copies(payload, 1) == payload;
  }

  lemma DropKeepsStreamsApart(outs: seq<OutStream>, i: nat)
    requires i < |outs|
    ensures Distinct(outs) ==> Distinct(WithoutAt(outs, i))
  {
    if Distinct(outs) {
      DistinctWithout(outs, i);
    }
  }

  lemma NoSuchPid(spine: seq<ClientConn>, outs: seq<OutStream>, pid: int)
    requires |outs| == |spine|
    requires forall i :: 0 <= i < |spine| ==> ClientsOf(spine, outs)[i].pid != pid
    ensures pid !in PidsOf(spine)
  {
    assert forall i :: 0 <= i < |spine| ==> PidsOf(spine)[i] == ClientsOf(spine, outs)[i].pid;
  }

  /** A new node with a new process keeps nodes and processes distinct. */
  lemma OkCons(client: ClientConn, spine: seq<ClientConn>)
    requires Distinct(spine) && Distinct(PidsOf(spine))
    requires client !in spine && client.pid !in PidsOf(spine)
    ensures [client.out] + OutsOf(spine) == OutsOf([client] + spine)
    ensures Distinct([client] + spine) && Distinct(PidsOf([client] + spine))
  {
    DistinctCons(client, spine);
    DistinctCons(client.pid, PidsOf(spine));
    assert PidsOf([client] + spine) == [client.pid] + PidsOf(spine);
  }

  /** Dropping one node keeps nodes and processes distinct. */
  lemma OkWithout(spine: seq<ClientConn>, i: nat)
    requires i < |spine| && Distinct(spine) && Distinct(PidsOf(spine))
    ensures WithoutAt(OutsOf(spine), i) == OutsOf(WithoutAt(spine, i))
    ensures Distinct(WithoutAt(spine, i)) && Distinct(PidsOf(WithoutAt(spine, i)))
  {
    DistinctWithout(spine, i);
    DistinctWithout(PidsOf(spine), i);
    assert PidsOf(WithoutAt(spine, i)) == WithoutAt(PidsOf(spine), i);
  }

  ghost function ClientsOf(spine: seq<ClientConn>, outs: seq<OutStream>): (clients: seq<Protocol.Client>)
    requires |outs| == |spine|
    reads outs
    ensures |clients| == |spine|
  {
    seq(|spine|, (i: nat) requires i < |spine| == |outs| reads outs =>
      Protocol.Client(spine[i].pid, spine[i].username, spine[i].role, outs[i].text))
  }

  lemma ClientsCons(client: ClientConn, spine: seq<ClientConn>, outs: seq<OutStream>)
    requires |outs| == |spine|
    ensures ClientsOf([client] + spine, [client.out] + outs) ==
            [Protocol.Client(client.pid, client.username, client.role, client.out.text)] + ClientsOf(spine, outs)
  {
  }

  lemma ClientsWithout(spine: seq<ClientConn>, outs: seq<OutStream>, i: nat)
    requires |outs| == |spine| && i < |spine|
    ensures ClientsOf(WithoutAt(spine, i), WithoutAt(outs, i)) == WithoutAt(ClientsOf(spine, outs), i)
  {
  }

  lemma {:induction false} FirstMatch(clients: seq<Protocol.Client>, pid: int, i: nat)
    requires i < |clients| && clients[i].pid == pid
    requires forall k :: 0 <= k < i ==> clients[k].pid != pid
    ensures Protocol.Find(clients, pid) == Some(clients[i])
  {
    if i == 0 {
    } else {
      FirstMatch(clients[1..], pid, i - 1);
    }
  }

  lemma {:induction false} RemoveAt(clients: seq<Protocol.Client>, pid: int, i: nat)
    requires i < |clients| && clients[i].pid == pid
    requires forall k :: 0 <= k < i ==> clients[k].pid != pid
    ensures Protocol.Remove(clients, pid) == WithoutAt(clients, i)
  {
    if i == 0 {
      WithoutFirst(clients);
    } else {
      RemoveAt(clients[1..], pid, i - 1);
      WithoutLater(clients, i);
    }
  }

  lemma {:induction false} NothingToRemove(clients: seq<Protocol.Client>, pid: int)
    requires forall k :: 0 <= k < |clients| ==> clients[k].pid != pid
    ensures Protocol.Remove(clients, pid) == clients && Protocol.Find(clients, pid).None?
  {
    if |clients| == 0 {
    } else {
      NothingToRemove(clients[1..], pid);
    }
  }

  /** Dropping the first node of a process unregisters it. */
  lemma DropIsRemove(spine: seq<ClientConn>, outs: seq<OutStream>, pid: int, i: nat)
    requires outs == OutsOf(spine) && i < |spine| && spine[i].pid == pid
    requires forall k :: 0 <= k < i ==> spine[k].pid != pid
    requires Distinct(spine) && Distinct(PidsOf(spine))
    ensures |outs| == |spine| && WithoutAt(outs, i) == OutsOf(WithoutAt(spine, i))
    ensures Distinct(WithoutAt(spine, i)) && Distinct(PidsOf(WithoutAt(spine, i)))
    ensures Distinct(outs) ==> Distinct(WithoutAt(outs, i))
    ensures ClientsOf(WithoutAt(spine, i), WithoutAt(outs, i)) == Protocol.Remove(ClientsOf(spine, outs), pid)
    ensures Protocol.Find(ClientsOf(spine, outs), pid).Some?
    ensures WithoutAt(spine, i) == Drop(spine, pid)
  {
    DropAt(spine, pid, i);
    FirstMatch(ClientsOf(spine, outs), pid, i);
    RemoveAt(ClientsOf(spine, outs), pid, i);
    OkWithout(spine, i);
    DropKeepsStreamsApart(outs, i);
    ClientsWithout(spine, outs, i);
  }

  lemma NotRegistered(spine: seq<ClientConn>, outs: seq<OutStream>, pid: int)
    requires |outs| == |spine| && forall k :: 0 <= k < |spine| ==> spine[k].pid != pid
    ensures var clients := ClientsOf(spine, outs);
            Protocol.Remove(clients, pid) == clients && Protocol.Find(clients, pid).None?
    ensures Drop(spine, pid) == spine
  {
    NothingToRemove(ClientsOf(spine, outs), pid);
    NothingToDrop(spine, pid);
  }

  lemma SentNothing(was: seq<Protocol.Client>, payload: string, spine: seq<ClientConn>, outs: seq<OutStream>)
    requires |was| == |spine| == |outs| && was == ClientsOf(spine, outs)
    ensures forall k :: 0 <= k < |outs| ==>
              was[k] == Protocol.Client(spine[k].pid, spine[k].username, spine[k].role, outs[k].text)
    ensures forall k :: 0 <= k < |outs| ==> outs[k].text == Sent(was[k].stream, payload, outs[..0], outs[k])
  {
  }

  /** Distinct streams have got the payload once each. */
  lemma SentIsBroadcast(was: seq<Protocol.Client>, payload: string, spine: seq<ClientConn>, outs: seq<OutStream>)
    requires |was| == |spine| == |outs| && Distinct(outs)
    requires forall k :: 0 <= k < |spine| ==>
               was[k] == Protocol.Client(spine[k].pid, spine[k].username, spine[k].role, was[k].stream)
    requires forall k :: 0 <= k < |outs| ==> outs[k].text == Sent(was[k].stream, payload, outs, outs[k])
    ensures ClientsOf(spine, outs) == Protocol.Broadcast(was, payload)
  {
    forall k | 0 <= k < |outs|
      ensures ClientsOf(spine, outs)[k] == Protocol.Broadcast(was, payload)[k]
    {
      SentOnce(was[k].stream, payload, outs, outs[k]);
    }
  }

  method Send(out: OutStream, payload: string,
              ghost was: seq<Protocol.Client>, ghost outs: seq<OutStream>, ghost i: nat)
    requires |was| == |outs| && i < |outs| && out == outs[i]
    requires forall k :: 0 <= k < |outs| ==> outs[k].text == Sent(was[k].stream, payload, outs[..i], outs[k])
    modifies out
    ensures forall k :: 0 <= k < |outs| ==> outs[k].text == Sent(was[k].stream, payload, outs[..i + 1], outs[k])
  {
    assert outs[..i + 1] == outs[..i] + [outs[i]];
    out.Write(payload);
    forall k | 0 <= k < |outs|
      ensures outs[k].text == Sent(was[k].stream, payload, outs[..i + 1], outs[k])
    {
      SentNext(was[k].stream, payload, outs[..i], outs[i], outs[k]);
    }
  }

  class ClientRegistry {
    var head: ClientConn?
    var count: nat
    ghost var spine: seq<ClientConn>
    ghost var outs: seq<OutStream>

    ghost function At(i: nat): ClientConn?
      reads this
    {
      if i < |spine| then spine[i] else null
    }

    ghost predicate Linked()
      reads this, spine
    {
      head == At(0) && forall i :: 0 <= i < |spine| ==> spine[i].next == At(i + 1)
    }

    /** The nodes form a list without repetition, and no two clients share a process. */
    ghost predicate Ok()
      reads this, spine
    {
      && Linked() && count == |spine|
      && outs == OutsOf(spine)
      && Distinct(spine) && Distinct(PidsOf(spine))
    }

    /** The registered clients with what they have received. */
    ghost function Clients(): (clients: seq<Protocol.Client>)
      requires |outs| == |spine|
      reads this, outs
      ensures |clients| == |spine|
    {
      ClientsOf(spine, outs)
    }

    /** All nodes and streams were there before or are new. */
    twostate predicate Keeps()
      reads this
    {
      && (forall i :: 0 <= i < |spine| ==> spine[i] in old(spine) || fresh(spine[i]))
      && (forall i :: 0 <= i < |outs| ==> outs[i] in old(outs) || fresh(outs[i]))
    }

    constructor ()
      ensures Ok() && Clients() == [] && spine == [] && outs == []
    {
      head, count, spine, outs := null, 0, [], [];
    }

    method Find(pid: int) returns (found: ClientConn?)
      requires Ok()
      ensures match Protocol.Find(Clients(), pid)
              case None => found == null
              case Some(client) =>
                && found != null && found in spine && found.pid == pid
                && found.username == client.user && found.role == client.role
    {
      var cur := head;
      ghost var i := 0;
      while cur != null
        invariant i <= |spine| && cur == At(i)
        invariant forall k :: 0 <= k < i ==> spine[k].pid != pid
        decreases |spine| - i
      {
        if cur.pid == pid {
          FirstMatch(Clients(), pid, i);
          return cur;
        }
        cur := cur.next;
        i := i + 1;
      }
      Protocol.FindIsMember(Clients(), pid);
      found := null;
    }

    /** Puts a new client in front, unless its process is registered already. */
    method Add(pid: int, username: string, role: Role, out: OutStream) returns (ok: bool)
      requires Ok()
      modifies this
      ensures Ok()
      ensures ok <==> Protocol.Find(old(Clients()), pid).None?
      ensures ok ==> Clients() == [Protocol.Client(pid, username, role, out.text)] + old(Clients())
      ensures ok ==> outs == [out] + old(outs) && |spine| > 0 && spine[1..] == old(spine)
      ensures ok ==> fresh(spine[0]) && spine[0].pid == pid && spine[0].out == out
      ensures !ok ==> Clients() == old(Clients()) && spine == old(spine) && outs == old(outs)
    {
      var existing := Find(pid);
      if existing != null {
        return false;
      }
      Protocol.FindIsMember(Clients(), pid);
      NoSuchPid(spine, outs, pid);
      var client := new ClientConn(pid, username, role, out);
      OkCons(client, spine);
      ClientsCons(client, spine, outs);
      Prepend(client);
      ok := true;
    }

    method Prepend(client: ClientConn)
      requires Linked() && count == |spine| && client !in spine
      modifies this, client
      ensures Linked() && count == |spine|
      ensures spine == [client] + old(spine) && outs == [client.out] + old(outs)
    {
      client.next := head;
      head := client;
      count := count + 1;
      spine, outs := [client] + spine, [client.out] + outs;
      forall i | 0 <= i < |spine|
        ensures spine[i].next == At(i + 1)
      {
        if i > 0 {
          assert spine[i] == old(spine)[i - 1];
        }
      }
    }

    /** Unlinks the client of a process: the link that points to it, the head or a next field, is redirected. */
    method Remove(pid: int) returns (ok: bool)
      requires Ok()
      modifies this, spine
      ensures Ok()
      ensures Clients() == Protocol.Remove(old(Clients()), pid)
      ensures ok <==> Protocol.Find(old(Clients()), pid).Some?
      ensures spine == Drop(old(spine), pid) && outs == OutsOf(spine) && Keeps()
      ensures Distinct(old(outs)) ==> Distinct(outs)
    {
      hide Protocol.Remove, Protocol.Find, ClientsOf, PidsOf, Distinct, Drop;
      var prev: ClientConn? := null;
      var cur := head;
      ghost var i := 0;
      while cur != null
        invariant i <= |spine| && cur == At(i)
        invariant if i == 0 then prev == null else prev == spine[i - 1]
        invariant forall k :: 0 <= k < i ==> spine[k].pid != pid
        decreases |spine| - i
      {
        if cur.pid == pid {
          DropIsRemove(spine, outs, pid, i);
          DropKeepsStreams(spine, pid);
          Unlink(prev, cur, i);
          return true;
        }
        prev := cur;
        cur := cur.next;
        i := i + 1;
      }
      NotRegistered(spine, outs, pid);
      ok := false;
    }

    method Unlink(prev: ClientConn?, cur: ClientConn, ghost i: nat)
      requires Linked() && Distinct(spine) && |outs| == |spine| == count && i < |spine| && cur == spine[i]
      requires if i == 0 then prev == null else prev == spine[i - 1]
      modifies this, spine
      ensures Linked() && count == |spine|
      ensures spine == WithoutAt(old(spine), i) && outs == WithoutAt(old(outs), i)
    {
      if prev == null {
        head := cur.next;
      } else {
        prev.next := cur.next;
      }
      count := count - 1;
      spine, outs := WithoutAt(spine, i), WithoutAt(outs, i);
      ghost var was := old(spine);
      forall k | 0 <= k < |spine|
        ensures spine[k].next == At(k + 1)
      {
        if k + 1 < i {
          assert spine[k] == was[k] && spine[k + 1] == was[k + 1] && was[k] != was[i - 1];
        } else if k + 1 == i {
          assert spine[k] == prev;
        } else {
          assert spine[k] == was[k + 1] && (i > 0 ==> was[k + 1] != was[i - 1]);
        }
      }
    }

    /** Sends a payload to every registered client: a stream gets it as often as it is registered. */
    method Broadcast(payload: string)
      requires Ok()
      modifies outs
      ensures Ok()
      ensures forall k :: 0 <= k < |outs| ==> outs[k].text == Sent(old(outs[k].text), payload, outs, outs[k])
      ensures Distinct(outs) ==> Clients() == Protocol.Broadcast(old(Clients()), payload)
    {
      hide Sent, Protocol.Broadcast, ClientsOf, PidsOf, Distinct;
      var cur := head;
      ghost var i := 0;
      ghost var was := Clients();
      SentNothing(was, payload, spine, outs);
      while cur != null
        invariant i <= |spine| && cur == At(i)
        invariant forall k :: 0 <= k < |outs| ==>
                    outs[k].text == Sent(was[k].stream, payload, outs[..i], outs[k])
        decreases |spine| - i
      {
        assert cur.out == outs[i];
        Send(cur.out, payload, was, outs, i);
        cur := cur.next;
        i := i + 1;
      }
      assert outs[..i] == outs;
      if Distinct(outs) {
        assert forall k :: 0 <= k < |outs| ==> outs[k].text == Sent(was[k].stream, payload, outs, outs[k]);
        SentIsBroadcast(was, payload, spine, outs);
      }
    }
  }
}
