/** The client table of `sg-tcp.c`: an array that grows by doubling and is swap-removed in place. */
module ClientTables {
  import opened Bytes

  /** The first entry with the value is overwritten by the last one, and the table gets shorter. */
  function SwapRemoved(s: seq<int>, fd: int): seq<int> {
    if fd !in s then s else s[FirstIndex(s, fd) := s[|s| - 1]][..|s| - 1]
  }

  function FirstIndex(s: seq<int>, fd: int): (i: nat)
    requires fd in s
    ensures i < |s| && s[i] == fd && fd !in s[..i]
  {
    if s[0] == fd then 0 else
      assert s == [s[0]] + s[1..];
      var i := 1 + FirstIndex(s[1..], fd);
      assert s[..i] == [s[0]] + s[1..][..i - 1];
      i
  }

  /** A removal takes exactly one occurrence of the client out, and keeps all others; of the rest only the
      last entry moves, to the place of the first occurrence. */
  lemma SwapRemovedTakesOne(s: seq<int>, fd: int)
    ensures multiset(SwapRemoved(s, fd)) == multiset(s) - multiset{fd}
    ensures |SwapRemoved(s, fd)| == if fd in s then |s| - 1 else |s|
    ensures forall k :: 0 <= k < |SwapRemoved(s, fd)| ==>
      SwapRemoved(s, fd)[k] == if s[k] == fd && fd !in s[..k] then s[|s| - 1] else s[k]
  {
    hide SwapRemoved;
    SwapRemovedAt(s, fd);
    if fd in s {
      var i, n := FirstIndex(s, fd), |s| - 1;
      assert SwapRemoved(s, fd) == s[i := s[n]][..n] by { SwapAt(s, fd, i); }
      var front := s[..n];
      assert s == front + [s[n]];
      assert multiset(s) == multiset(front) + multiset{s[n]};
      if i < n {
        assert SwapRemoved(s, fd) == front[i := s[n]];
        UpdatedMultiset(front, i, s[n]);
      } else {
        assert SwapRemoved(s, fd) == front;
      }
    } else {
      SwapNone(s, fd);
      assert multiset(s)[fd] == 0;
    }
  }

  lemma SwapRemovedAt(s: seq<int>, fd: int)
    ensures |SwapRemoved(s, fd)| == if fd in s then |s| - 1 else |s|
    ensures forall k :: 0 <= k < |SwapRemoved(s, fd)| ==>
      SwapRemoved(s, fd)[k] == if s[k] == fd && fd !in s[..k] then s[|s| - 1] else s[k]
  {
    if fd in s {
      var i := FirstIndex(s, fd);
      forall k | 0 <= k < |s| ensures s[k] == fd && fd !in s[..k] <==> k == i {
        assert k > i ==> s[..k][i] == fd;
      }
    }
  }

  lemma UpdatedMultiset(s: seq<int>, i: nat, x: int)
    requires i < |s|
    ensures multiset(s[i := x]) + multiset{s[i]} == multiset(s) + multiset{x}
  {
    assert s == s[..i] + [s[i]] + s[i + 1..];
    assert s[i := x] == s[..i] + [x] + s[i + 1..];
  }

  /** The capacities that growth goes through. */
  ghost predicate Grown(cap: nat) {
    cap == 0 || exists k: nat :: cap == 16 * Power(k)
  }

  ghost function Power(k: nat): nat {
    if k == 0 then 1 else 2 * Power(k - 1)
  }

  datatype Packet = Packet(fd: int, data: bytes)

  /** The send queue as its producers see it: what they push, in order. Waiting for room is part of
      the ring's protocol. */
  class Outbox {
    var pushed: seq<Packet>

    constructor ()
      ensures pushed == []
    {
      pushed := [];
    }

    /** `SgTcpServer_send`, where its allocations succeed: the data is copied. */
    method Send(fd: int, data: bytes)
      modifies this
      ensures pushed == old(pushed) + [Packet(fd, data)]
    {
      pushed := pushed + [Packet(fd, data)];
    }
  }

  class ClientTable {
    var clients: array<int>
    var cnt: nat

    ghost predicate Valid()
      reads this
    {
      cnt <= clients.Length && Grown(clients.Length)
    }

    ghost function Table(): seq<int>
      requires Valid()
      reads this, clients
    {
      clients[..cnt]
    }

    constructor ()
      ensures Valid() && fresh(clients) && Table() == []
    {
      clients, cnt := new int[0], 0;
    }

    /** The locked part of accepting a connection. The array is replaced only when it is full, and then
        by one of twice the size, or of 16 entries. */
    method Accept(fd: int)
      requires Valid()
      modifies this, clients
      ensures Valid() && Table() == old(Table()) + [fd]
      ensures if old(cnt) < old(clients).Length then clients == old(clients)
              else fresh(clients) && clients.Length == if old(cnt) == 0 then 16 else 2 * old(cnt)
    {
      if cnt == clients.Length {
        var newcap := if clients.Length != 0 then clients.Length * 2 else 16;
        GrownOnce(clients.Length);
        var grown := new int[newcap];
        forall i | 0 <= i < cnt {
          grown[i] := clients[i];
        }
        assert grown[..cnt] == clients[..cnt];
        clients := grown;
      }
      clients[cnt] := fd;
      cnt := cnt + 1;
    }

    /** The locked part of `cleanup_connection`. */
    method Cleanup(fd: int)
      requires Valid()
      modifies this`cnt, clients
      ensures Valid() && Table() == SwapRemoved(old(Table()), fd)
    {
      hide SwapRemoved, Grown;
      ghost var s := Table();
      var i := 0;
      while i < cnt
        invariant i <= cnt == old(cnt) && Table() == s && fd !in s[..i]
      {
        if clients[i] == fd {
          cnt := cnt - 1;
          clients[i] := clients[cnt];
          SwapAt(s, fd, i);
          assert clients[..cnt] == s[i := s[|s| - 1]][..|s| - 1];
          return;
        }
        i := i + 1;
      }
      SwapNone(s, fd);
    }

    /** The loop of `SgTcpServer_broadcast`, taken alone: one copy for every entry, in table order. */
    method Broadcast(out: Outbox, data: bytes)
      requires Valid()
      modifies out
      ensures |out.pushed| == |old(out.pushed)| + |Table()| && old(out.pushed) <= out.pushed
      ensures forall i :: 0 <= i < |Table()| ==> out.pushed[|old(out.pushed)| + i] == Packet(Table()[i], data)
    {
      ghost var n := |out.pushed|;
      var i := 0;
      while i < cnt
        invariant i <= cnt && |out.pushed| == n + i && old(out.pushed) <= out.pushed
        invariant forall j :: 0 <= j < i ==> out.pushed[n + j] == Packet(clients[j], data)
      {
        out.Send(clients[i], data);
        i := i + 1;
      }
    }

    /** `SgTcpServer_get_clients`: a copy of the table, or -1 where the allocation of the copy is not
        granted. The count is reported either way. */
    method GetClients(granted: bool) returns (result: int, list: array?<int>, count: nat)
      requires Valid()
      ensures result == 0 <==> granted
      ensures result in {0, -1}
      ensures count == |Table()|
      ensures list != null <==> granted
      ensures list != null ==> fresh(list) && list[..] == Table()
    {
      count := cnt;
      if !granted {
        return -1, null, count;
      }
      list := new int[count];
      result := 0;
      forall i | 0 <= i < cnt {
        list[i] := clients[i];
      }
    }
  }

  lemma GrownOnce(cap: nat)
    requires Grown(cap)
    ensures Grown(if cap != 0 then cap * 2 else 16)
  {
    if cap == 0 {
      assert 16 == 16 * Power(0);
    } else {
      var k: nat :| cap == 16 * Power(k);
      assert cap * 2 == 16 * Power(k + 1);
    }
  }

  lemma SwapAt(s: seq<int>, fd: int, i: nat)
    requires i < |s| && s[i] == fd && fd !in s[..i]
    ensures SwapRemoved(s, fd) == s[i := s[|s| - 1]][..|s| - 1]
  {
    var j := FirstIndex(s, fd);
    assert j == i;
  }

  lemma SwapNone(s: seq<int>, fd: int)
    requires fd !in s[..|s|]
    ensures SwapRemoved(s, fd) == s
  {
    assert s[..|s|] == s;
  }
}
