/** connectionlist.c: the heap list of open connections. */
module ConnectionLists {

  datatype Connection = Connection(fd: int, thread: int)

  class Item {
    // Set when the item is made; only the link changes afterwards.
    const connection: Connection
    var next: Item?

    constructor (connection: Connection)
      ensures this.connection == connection && next == null
    {
      this.connection := connection;
      next := null;
    }
  }

  /** The place of the first connection on fd, or the length if there is none. */
  function FirstMatch(cs: seq<Connection>, fd: int): (k: nat)
    ensures k <= |cs|
    ensures k < |cs| ==> cs[k].fd == fd
    ensures forall i :: 0 <= i < k ==> cs[i].fd != fd
  {
    if cs == [] || cs[0].fd == fd then 0 else 1 + FirstMatch(cs[1..], fd)
  }

  lemma FirstMatchIs(cs: seq<Connection>, fd: int, k: nat)
    requires k <= |cs| && (k < |cs| ==> cs[k].fd == fd)
    requires forall i :: 0 <= i < k ==> cs[i].fd != fd
    ensures FirstMatch(cs, fd) == k
  {
  }

  /** All items but the one at k. */
  function Splice<T>(s: seq<T>, k: nat): (r: seq<T>)
    requires k < |s|
    ensures |r| == |s| - 1
  {
    s[..k] + s[k + 1..]
  }

  lemma SpliceAt<T>(s: seq<T>, k: nat, i: nat)
    requires k < |s| && i < |s| - 1
    ensures Splice(s, k)[i] == s[if i < k then i else i + 1]
  {
  }

  lemma SpliceHead<T>(s: seq<T>, k: nat)
    requires k < |s|
    ensures |s| > 1 ==> Splice(s, k)[0] == if k == 0 then s[1] else s[0]
  {
  }

  ghost predicate Distinct<T>(s: seq<T>)
  {
    forall i, j :: 0 <= i < j < |s| ==> s[i] != s[j]
  }

  lemma DistinctAt<T>(s: seq<T>, i: nat, j: nat)
    requires Distinct(s) && i < |s| && j < |s|
    ensures s[i] == s[j] <==> i == j
  {
  }

  lemma DistinctSnoc<T>(s: seq<T>, x: T)
    requires Distinct(s) && x !in s
    ensures Distinct(s + [x])
  {
  }

  lemma SpliceDistinct<T>(s: seq<T>, k: nat)
    requires k < |s| && Distinct(s)
    ensures Distinct(Splice(s, k))
  {
    forall i, j | 0 <= i < j < |s| - 1
      ensures Splice(s, k)[i] != Splice(s, k)[j]
    {
      SpliceAt(s, k, i);
      SpliceAt(s, k, j);
    }
  }

  ghost function ConnectionsOf(items: seq<Item>): (r: seq<Connection>)
    ensures |r| == |items|
    ensures forall i :: 0 <= i < |r| ==> r[i] == items[i].connection
  {
    seq(|items|, i requires 0 <= i < |items| => items[i].connection)
  }

  lemma SpliceConnections(items: seq<Item>, k: nat)
    requires k < |items|
    ensures ConnectionsOf(Splice(items, k)) == Splice(ConnectionsOf(items), k)
  {
    forall i | 0 <= i < |items| - 1
      ensures ConnectionsOf(Splice(items, k))[i] == Splice(ConnectionsOf(items), k)[i]
    {
      SpliceAt(items, k, i);
      SpliceAt(ConnectionsOf(items), k, i);
    }
  }

  class ConnectionList {
    var head: Item?
    // Whether the calling thread holds m_mutex.
    var mutex: bool

    ghost var spine: seq<Item>
    ghost var freed: set<Item>

    /** The pointers spell out the spine, which never meets itself or a freed item. */
    ghost predicate Valid()
      reads `head, `spine, `freed, spine
    {
      && head == At(0)
      && (forall i :: 0 <= i < |spine| ==> InPlace(i))
      && Distinct(spine)
    }

    ghost predicate InPlace(i: nat)
      reads `spine, `freed, spine
      requires i < |spine|
    {
      spine[i].next == At(i + 1) && spine[i] !in freed
    }

    ghost function At(i: nat): Item?
      reads `spine
    {
      if i < |spine| then spine[i] else null
    }

    ghost function Connections(): seq<Connection>
      reads `spine
    {
      ConnectionsOf(spine)
    }

    constructor ()
      ensures Valid() && spine == [] && freed == {} && !mutex
    {
      head, mutex, spine, freed := null, false, [], {};
    }

    /** Finds the first match and the item before it. What the caller's two pointers held, item0 and before0,
        they keep if there is none. */
    method FindConnection(fd: int, item0: Item?, before0: Item?) returns (status: int, item: Item?, before: Item?)
      requires Valid()
      ensures var k := FirstMatch(Connections(), fd);
              if k == |spine| then status == -1 && item == item0 && before == before0
              else status == 0 && item == spine[k] && before == if k == 0 then null else spine[k - 1]
    {
      hide FirstMatch;
      var next, prev := head, null;
      ghost var i := 0;
      while next != null
        invariant i <= |spine| && next == At(i)
        invariant prev == if i == 0 then null else spine[i - 1]
        invariant forall j :: 0 <= j < i ==> spine[j].connection.fd != fd
        decreases |spine| - i
      {
        if next.connection.fd == fd {
          FirstMatchIs(Connections(), fd, i);
          return 0, next, prev;
        }
        assert InPlace(i);
        prev := next;
        next := next.next;
        i := i + 1;
      }
      FirstMatchIs(Connections(), fd, i);
      return -1, item0, before0;
    }

    method FindEnd() returns (end: Item?)
      requires Valid()
      ensures end == if spine == [] then null else spine[|spine| - 1]
    {
      if head == null {
        return null;
      }
      var next := head;
      ghost var i := 0;
      assert InPlace(0);
      while next.next != null
        invariant i < |spine| && next == spine[i] && InPlace(i)
        decreases |spine| - i
      {
        next := next.next;
        i := i + 1;
        assert InPlace(i);
      }
      end := next;
    }

    /** Appends, leaving every other item as it was. */
    method AddConnection(fd: int, thread: int) returns (item: Item)
      requires Valid() && !mutex
      modifies this, spine
      ensures Valid() && !mutex && fresh(item)
      ensures spine == old(spine) + [item] && freed == old(freed)
      ensures Connections() == old(Connections()) + [Connection(fd, thread)]
    {
      hide Distinct;
      ghost var was := spine;
      mutex := true;
      item := new Item(Connection(fd, thread));
      assert item !in was && item !in freed;
      var end := FindEnd();
      if end == null {
        head := item;
      } else {
        end.next := item;
      }
      spine := spine + [item];
      forall i | 0 <= i < |spine|
        ensures InPlace(i)
      {
        if i < |was| {
          assert old(InPlace(i)) && spine[i] == was[i];
          DistinctAt(was, i, |was| - 1);
        }
      }
      DistinctSnoc(was, item);
      mutex := false;
    }

    /** An item is freed at most once. */
    method Free(item: Item)
      requires item !in freed
      modifies `freed
      ensures freed == old(freed) + {item}
    {
      freed := freed + {item};
    }

    /** The unlinking assignments of CloseConnection, and the free that follows them. */
    method Unlink(item: Item, prev: Item?, ghost k: nat)
      requires Valid() && k < |spine| && item == spine[k] && prev == if k == 0 then null else spine[k - 1]
      modifies `head, `spine, `freed, prev
      ensures Valid() && spine == Splice(old(spine), k)
      ensures freed == old(freed) + {item}
    {
      hide Splice, Distinct;
      ghost var was := spine;
      assert InPlace(k);
      if prev == null {
        head := item.next;
      } else {
        prev.next := item.next;
      }
      spine := Splice(was, k);
      Free(item);
      forall i | 0 <= i < |spine|
        ensures InPlace(i)
      {
        var a := if i < k then i else i + 1;
        assert old(InPlace(a));
        SpliceAt(was, k, i);
        if i + 1 < |spine| { SpliceAt(was, k, i + 1); }
        DistinctAt(was, a, k);
        if k > 0 { DistinctAt(was, a, k - 1); }
      }
      SpliceDistinct(was, k);
      SpliceHead(was, k);
    }

    /** The head is the first item, and the first match for its own descriptor. */
    lemma HeadIsFirst()
      requires Valid()
      ensures head == null <==> spine == []
      ensures head != null ==> head == spine[0] && head !in freed && head.next == At(1)
                               && FirstMatch(Connections(), head.connection.fd) == 0
    {
      if spine != [] { assert InPlace(0); }
    }

    /** On a list that is not empty, unlinks and frees exactly the first match, or leaves the list as it
        is and reports -1. On an empty list it reports 1 and, as written, keeps the mutex. */
    method CloseConnection(fd: int) returns (status: int)
      requires Valid() && !mutex
      modifies this, spine
      ensures Valid()
      ensures mutex <==> old(spine) == []
      ensures var k := FirstMatch(old(Connections()), fd);
              if k == |old(spine)| then
                status == (if old(spine) == [] then 1 else -1) && spine == old(spine) && freed == old(freed)
                && Connections() == old(Connections())
              else
                status == 0 && spine == Splice(old(spine), k) && freed == old(freed) + {old(spine)[k]}
                && Connections() == Splice(old(Connections()), k)
    {
      hide ConnectionsOf, Valid;
      mutex := true;
      HeadIsFirst();
      if head == null {
        return 1;
      }
      status := 0;
      ghost var k := FirstMatch(Connections(), fd);
      var next: Item?, prev: Item? := *, *;
      var found;
      found, next, prev := FindConnection(fd, next, prev);
      if found == 0 {
        SpliceConnections(spine, k);
        Unlink(next, prev, k);
      } else {
        status := -1;
      }
      mutex := false;
    }

    /** Closes by descriptor while walking the list. The item closed is always the one at the head, even
        where a descriptor occurs twice, so the walk ends with nothing left and each item freed once. */
    method Destroy()
      requires Valid() && !mutex
      modifies this, spine
      ensures Valid() && !mutex && spine == [] && head == null
      ensures freed == old(freed) + set x <- old(spine)
    {
      hide Valid, ConnectionsOf, FirstMatch;
      HeadIsFirst();
      var next := head;
      ghost var i := 0;
      while next != null
        invariant i <= |old(spine)| && spine == old(spine)[i..]
        invariant Valid() && !mutex && next == head && (next == null <==> spine == [])
        invariant freed == old(freed) + set x <- old(spine)[..i]
        decreases |spine|
      {
        HeadIsFirst();
        var tofree := next;
        next := next.next;
        var status := CloseConnection(tofree.connection.fd);
        assert old(spine)[..i + 1] == old(spine)[..i] + [tofree];
        i := i + 1;
        HeadIsFirst();
      }
      assert old(spine)[..i] == old(spine);
    }
  }
}
