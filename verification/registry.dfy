/**
 The server's `$clients` array. A PHP array keeps its elements in insertion
 order and hands out integer keys with `$a[] = x` from a counter that only
 grows (one past the largest key ever used), so a key freed by `unset` is
 never given out again. `$read`, built from it by `array_map` and narrowed
 by `socket_select`, keeps the same keys in the same order.
 */
module Registry {
  import opened Php
  import opened Websocket

  /** One element of `$clients`: its key and the connection object stored there. */
  datatype Entry = Entry(key: nat, conn: Connection)

  /** One element of `$read`: the key it had in `$clients` and its socket. */
  datatype Ready = Ready(key: nat, socket: Socket)

  predicate HasKey(clients: seq<Entry>, key: nat)
  {
    exists e :: e in clients && e.key == key
  }

  /** Keys grow in insertion order, as `$a[] = x` guarantees. */
  ghost predicate KeysAscending(clients: seq<Entry>)
  {
    forall i, j :: 0 <= i < j < |clients| ==> clients[i].key < clients[j].key
  }

  ghost predicate ReadyAscending(read: seq<Ready>)
  {
    forall i, j :: 0 <= i < j < |read| ==> read[i].key < read[j].key
  }

  /** No socket is wrapped by two elements. */
  ghost predicate SocketsDistinct(clients: seq<Entry>)
  {
    forall a, b :: a in clients && b in clients && a.key != b.key ==> a.conn.socket != b.conn.socket
  }

  /** `unset($clients[$key])`: drops the element with that key, keeps the rest in order. */
  function Remove(clients: seq<Entry>, key: nat): (r: seq<Entry>)
    ensures forall e :: e in r <==> e in clients && e.key != key
    ensures |r| <= |clients|
    ensures !HasKey(clients, key) ==> r == clients
  {
    if |clients| == 0 then []
    else
      var rest := Remove(clients[1..], key);
      assert forall e :: e in clients <==> e == clients[0] || e in clients[1..];
      assert !HasKey(clients, key) ==> !HasKey(clients[1..], key);
      if clients[0].key == key then rest else [clients[0]] + rest
  }

  /** Removing keeps the remaining keys in ascending order. */
  lemma {:induction false} RemoveAscending(clients: seq<Entry>, key: nat)
    requires KeysAscending(clients)
    ensures KeysAscending(Remove(clients, key))
  {
    if |clients| > 0 {
      var rest := Remove(clients[1..], key);
      RemoveAscending(clients[1..], key);
      if clients[0].key != key {
        var r := [clients[0]] + rest;
        forall j | 0 < j < |r|
          ensures r[0].key < r[j].key
        {
          assert r[j] in rest;
          var m :| 0 <= m < |clients[1..]| && clients[1..][m] == r[j];
          assert clients[m + 1] == r[j];
        }
      }
    }
  }

  /** With unique keys, removing a present key removes exactly one element. */
  lemma {:induction false} RemoveCount(clients: seq<Entry>, key: nat)
    requires KeysAscending(clients) && HasKey(clients, key)
    ensures |Remove(clients, key)| == |clients| - 1
  {
    var e :| e in clients && e.key == key;
    var i :| 0 <= i < |clients| && clients[i] == e;
    if i == 0 {
      assert forall j :: 0 <= j < |clients[1..]| ==> clients[1..][j].key != key;
      assert !HasKey(clients[1..], key);
    } else {
      assert clients[1..][i - 1] == e;
      RemoveCount(clients[1..], key);
    }
  }

  /** `$clients[$key]`: the connection stored under the key, or `null`. */
  function Lookup(clients: seq<Entry>, key: nat): (r: Option<Connection>)
    ensures r.Some? ==> Entry(key, r.value) in clients
    ensures r.None? <==> !HasKey(clients, key)
  {
    if |clients| == 0 then None
    else if clients[0].key == key then Some(clients[0].conn)
    else
      assert forall e :: e in clients <==> e == clients[0] || e in clients[1..];
      Lookup(clients[1..], key)
  }

  /** With unique keys, the element under a key is the only one with that key. */
  lemma LookupUnique(clients: seq<Entry>, key: nat, c: Connection)
    requires KeysAscending(clients)
    requires Entry(key, c) in clients
    ensures Lookup(clients, key) == Some(c)
  {
    var c' := Lookup(clients, key).value;
    var i :| 0 <= i < |clients| && clients[i] == Entry(key, c);
    var j :| 0 <= j < |clients| && clients[j] == Entry(key, c');
    assert i == j;
  }

  /** Removing one key does not change what another key finds. */
  lemma LookupAfterRemove(clients: seq<Entry>, gone: nat, key: nat)
    requires KeysAscending(clients)
    requires gone != key
    ensures Lookup(Remove(clients, gone), key) == Lookup(clients, key)
  {
    var r := Remove(clients, gone);
    match Lookup(clients, key) {
      case None =>
      case Some(c) =>
        RemoveAscending(clients, gone);
        LookupUnique(r, key, c);
    }
  }

  /** Appending under another key does not change what a key finds. */
  lemma {:induction false} LookupAppend(clients: seq<Entry>, e: Entry, key: nat)
    requires e.key != key
    ensures Lookup(clients + [e], key) == Lookup(clients, key)
  {
    if |clients| == 0 {
      assert clients + [e] == [e];
    } else {
      assert (clients + [e])[1..] == clients[1..] + [e];
      LookupAppend(clients[1..], e, key);
    }
  }

  /**
   `$read` after `array_map` and `socket_select`: the key and socket of every
   element whose socket is ready, in `$clients` order.
   */
  function ReadSet(clients: seq<Entry>, ready: set<Socket>): (r: seq<Ready>)
    ensures |r| <= |clients|
    ensures forall x :: x in r ==> x.socket in ready
    ensures forall x :: x in r ==> exists e :: e in clients && e.key == x.key && e.conn.socket == x.socket
    ensures forall e :: e in clients && e.conn.socket in ready ==> Ready(e.key, e.conn.socket) in r
  {
    if |clients| == 0 then []
    else
      var e0 := clients[0];
      var rest := ReadSet(clients[1..], ready);
      assert forall e :: e in clients <==> e == e0 || e in clients[1..];
      if e0.conn.socket in ready then [Ready(e0.key, e0.conn.socket)] + rest else rest
  }

  lemma {:induction false} ReadSetKeysAbove(clients: seq<Entry>, ready: set<Socket>, bound: int)
    requires forall i :: 0 <= i < |clients| ==> bound < clients[i].key
    ensures forall i :: 0 <= i < |ReadSet(clients, ready)| ==> bound < ReadSet(clients, ready)[i].key
  {
    if |clients| > 0 {
      ReadSetKeysAbove(clients[1..], ready, bound);
    }
  }

  /** `$read` keeps the order of `$clients`, so its keys ascend too. */
  lemma {:induction false} ReadSetAscending(clients: seq<Entry>, ready: set<Socket>)
    requires KeysAscending(clients)
    ensures ReadyAscending(ReadSet(clients, ready))
  {
    if |clients| > 0 {
      var e0, tail := clients[0], clients[1..];
      assert forall i :: 0 <= i < |tail| ==> tail[i] == clients[i + 1];
      ReadSetAscending(tail, ready);
      if e0.conn.socket in ready {
        ReadSetKeysAbove(tail, ready, e0.key);
        ConsAscending(Ready(e0.key, e0.conn.socket), ReadSet(tail, ready));
      }
    }
  }

  lemma ConsAscending(x: Ready, rest: seq<Ready>)
    requires ReadyAscending(rest)
    requires forall i :: 0 <= i < |rest| ==> x.key < rest[i].key
    ensures ReadyAscending([x] + rest)
  {
    var r := [x] + rest;
    forall i, j | 0 <= i < j < |r|
      ensures r[i].key < r[j].key
    {
      assert r[j] == rest[j - 1];
      if i > 0 {
        assert r[i] == rest[i - 1];
      }
    }
  }

  /** Distinct keys in a read set built from distinct sockets carry distinct sockets. */
  lemma ReadSocketsDistinct(clients: seq<Entry>, read: seq<Ready>, i: int, j: int)
    requires SocketsDistinct(clients)
    requires forall x :: x in read ==> exists e :: e in clients && e.key == x.key && e.conn.socket == x.socket
    requires 0 <= i < |read| && 0 <= j < |read| && read[i].key != read[j].key
    ensures read[i].socket != read[j].socket
  {
    assert read[i] in read && read[j] in read;
    var a :| a in clients && a.key == read[i].key && a.conn.socket == read[i].socket;
    var b :| b in clients && b.key == read[j].key && b.conn.socket == read[j].socket;
  }

  /** `array_search($socket, $read)`: the first position holding the socket, if any. */
  function IndexOfSocket(read: seq<Ready>, socket: Socket): (r: Option<nat>)
    ensures r.Some? ==> r.value < |read| && read[r.value].socket == socket
    ensures r.Some? ==> forall j :: 0 <= j < r.value ==> read[j].socket != socket
    ensures r.None? ==> forall j :: 0 <= j < |read| ==> read[j].socket != socket
  {
    if |read| == 0 then None
    else if read[0].socket == socket then Some(0)
    else
      match IndexOfSocket(read[1..], socket)
      case None => None
      case Some(i) => Some(i + 1)
  }
}
