/** The client directory: a fixed-capacity table of client bundles with a
    count of live entries, searched linearly and compacted by swap-delete.
    The reader/writer lock around it is not modelled; every operation runs
    alone. */
module Registration {
  import opened BabbleTypes

  /** A client bundle: the directory entry of one logged-in client. The
      table stores references to bundles, so identity is that of the object. */
  class ClientBundle {
    const key: Key
    const sock: int
    const id: seq<char>

    constructor (key: Key, sock: int, id: seq<char>)
      ensures this.key == key && this.sock == sock && this.id == id
    {
      this.key := key;
      this.sock := sock;
      this.id := id;
    }
  }

  /** Every slot of `s` holds a bundle (no NULL). */
  ghost predicate AllPresent(s: seq<ClientBundle?>)
  {
    forall i | 0 <= i < |s| :: s[i] != null
  }

  /** No two bundles of `s` share a key. */
  ghost predicate DistinctKeys(s: seq<ClientBundle?>)
    requires AllPresent(s)
  {
    forall i, j | 0 <= i < j < |s| :: s[i].key != s[j].key
  }

  /** Some bundle of `s` has key `key`. */
  ghost predicate HasKey(s: seq<ClientBundle?>, key: Key)
    requires AllPresent(s)
  {
    exists i | 0 <= i < |s| :: s[i].key == key
  }

  /** The index of the LAST bundle of `s` with key `key`, or -1 when there
      is none: where a forward scan that keeps the latest match ends up. */
  ghost function LastMatch(s: seq<ClientBundle?>, key: Key): (i: int)
    requires AllPresent(s)
    ensures -1 <= i < |s|
    ensures forall j | i < j < |s| :: s[j].key != key
    ensures i >= 0 ==> s[i].key == key
    ensures i == -1 <==> !HasKey(s, key)
    decreases |s|
  {
    if s == [] then -1
    else if s[|s| - 1].key == key then |s| - 1
    else
      var p := s[..|s| - 1];
      assert forall j | 0 <= j < |p| :: p[j] == s[j];
      LastMatch(p, key)
  }

  /** What registration_lookup returns for the live entries `s`: the last
      bundle with key `key`, or null. */
  ghost function LookupIn(s: seq<ClientBundle?>, key: Key): (r: ClientBundle?)
    requires AllPresent(s)
    ensures r == null <==> !HasKey(s, key)
    ensures r != null ==> r.key == key && r in s
  {
    var i := LastMatch(s, key);
    if i < 0 then null else s[i]
  }

  /** The index at which a forward scan that stops at the first match halts:
      the first bundle with key `key`, or |s| when there is none. */
  ghost function FirstMatch(s: seq<ClientBundle?>, key: Key): (i: nat)
    requires AllPresent(s)
    ensures i <= |s|
    ensures forall j | 0 <= j < i :: s[j].key != key
    ensures i < |s| <==> HasKey(s, key)
    ensures i < |s| ==> s[i].key == key
    decreases |s|
  {
    if s == [] then 0
    else if s[0].key == key then 0
    else
      var k := FirstMatch(s[1..], key);
      assert forall j | 1 <= j < |s| :: s[j] == s[1..][j - 1];
      1 + k
  }

  /** The live entries after swap-deleting index `i`: the last entry moves
      into slot `i` and the sequence shrinks by one. */
  ghost function SwapDelete<T>(s: seq<T>, i: nat): seq<T>
    requires i < |s|
  {
    s[i := s[|s| - 1]][..|s| - 1]
  }

  /** With distinct keys, the last-match scan and the first-match scan
      agree: both find the one bundle with the key, or both find none. */
  lemma LookupIsFirstMatch(s: seq<ClientBundle?>, key: Key)
    requires AllPresent(s) && DistinctKeys(s)
    ensures LastMatch(s, key) == if FirstMatch(s, key) < |s| then FirstMatch(s, key) else -1
    ensures LookupIn(s, key) == if FirstMatch(s, key) < |s| then s[FirstMatch(s, key)] else null
  {
  }

  /** Swap-delete removes exactly the entry at `i`: the remaining multiset
      is the old one minus that entry. */
  lemma SwapDeleteMultiset<T>(s: seq<T>, i: nat)
    requires i < |s|
    ensures |SwapDelete(s, i)| == |s| - 1
    ensures multiset(SwapDelete(s, i)) == multiset(s) - multiset{s[i]}
  {
    var last := s[|s| - 1];
    var u := s[i := last];
    var r := SwapDelete(s, i);
    var m := multiset(s) - multiset{s[i]};
    assert multiset(u) == m + multiset{last};
    assert multiset(u) == multiset(r) + multiset{last} by {
      assert u == r + [last];
    }
    forall x ensures multiset(r)[x] == m[x] {
      assert multiset(u)[x] == multiset(r)[x] + multiset{last}[x];
    }
  }

  /** Swap-delete keeps every slot filled and the keys distinct, and with
      distinct keys the removed key is gone afterwards. */
  lemma SwapDeleteKeepsDistinct(s: seq<ClientBundle?>, i: nat)
    requires i < |s| && AllPresent(s) && DistinctKeys(s)
    ensures AllPresent(SwapDelete(s, i)) && DistinctKeys(SwapDelete(s, i))
    ensures !HasKey(SwapDelete(s, i), s[i].key)
  {
  }

  /** Moving slot `n - 1` of an array into slot `i` and shrinking the live
      prefix from `n` to `n - 1` swap-deletes index `i` of the live entries. */
  lemma SwapDeleteInPlace<T>(t: seq<T>, n: nat, i: nat)
    requires i < n <= |t|
    ensures t[i := t[n - 1]][..n - 1] == SwapDelete(t[..n], i)
  {
  }

  /** registration_table[MAX_CLIENT] with nb_registered_clients. */
  class RegistrationTable {
    const table: array<ClientBundle?>
    var count: int

    /** The shape the scans rely on: the count is within capacity and every
        live slot holds a bundle. */
    ghost predicate WellFormed()
      reads this, table
    {
      0 <= count <= table.Length && AllPresent(table[..count])
    }

    /** The table invariant: well formed, and live keys pairwise distinct. */
    ghost predicate Valid()
      reads this, table
    {
      WellFormed() && DistinctKeys(table[..count])
    }

    /** The live entries, in table order. */
    ghost function Live(): seq<ClientBundle?>
      reads this, table
      requires WellFormed()
    {
      table[..count]
    }

    /** A live entry has key `key`. */
    ghost predicate Registered(key: Key)
      reads this, table
      requires WellFormed()
    {
      HasKey(Live(), key)
    }

    /** registration_init: no live entry, every slot NULL. */
    constructor Init(capacity: nat)
      ensures Valid() && fresh(table)
      ensures table.Length == capacity && count == 0 && Live() == []
      ensures forall i | 0 <= i < capacity :: table[i] == null
    {
      table := new ClientBundle?[capacity](_ => null);
      count := 0;
    }

    /** registration_lookup: scans every live slot and keeps the last
        bundle whose key matches; null when none does. */
    method Lookup(key: Key) returns (r: ClientBundle?)
      requires WellFormed()
      ensures r == LookupIn(Live(), key)
      ensures r == null <==> !Registered(key)
      ensures r != null ==> r.key == key && r in Live()
    {
      r := null;
      var i := 0;
      while i < count
        invariant 0 <= i <= count
        invariant AllPresent(table[..i])
        invariant r == LookupIn(table[..i], key)
      {
        assert table[..i + 1][..i] == table[..i];
        if table[i].key == key {
          r := table[i];
        }
        i := i + 1;
      }
      assert table[..i] == Live();
    }

    /** registration_insert: rejects a key already registered and a full
        table with -1, leaving the table as it was; otherwise appends `cl`
        at index `count` and returns 0. */
    method Insert(cl: ClientBundle) returns (res: int)
      requires Valid()
      modifies this, table
      ensures Valid()
      ensures old(Registered(cl.key)) ==>
                res == -1 && count == old(count) && table[..] == old(table[..])
      ensures !old(Registered(cl.key)) && old(count) == table.Length ==>
                res == -1 && count == old(count) && table[..] == old(table[..])
      ensures !old(Registered(cl.key)) && old(count) < table.Length ==>
                res == 0 && count == old(count) + 1 && table[..] == old(table[..])[old(count) := cl]
      ensures res == 0 ==> Live() == old(Live()) + [cl] && LookupIn(Live(), cl.key) == cl
    {
      var lp := Lookup(cl.key);
      if lp != null {
        return -1;
      }
      if count == table.Length {
        return -1;
      }
      table[count] := cl;
      count := count + 1;
      assert Live() == old(Live()) + [cl];
      return 0;
    }

    /** registration_remove: finds the first live bundle with key `key`,
        moves the last live entry into its slot, shrinks the count and
        returns the bundle; returns null and changes nothing when no live
        bundle has that key. */
    method Remove(key: Key) returns (r: ClientBundle?)
      requires Valid()
      modifies this, table
      ensures Valid()
      ensures !old(Registered(key)) ==>
                r == null && count == old(count) && table[..] == old(table[..])
      ensures old(Registered(key)) ==>
                var i := FirstMatch(old(Live()), key);
                r == old(table[i]) && count == old(count) - 1 &&
                table[..] == old(table[..])[i := old(table[count - 1])]
      ensures old(Registered(key)) ==>
                Live() == SwapDelete(old(Live()), FirstMatch(old(Live()), key)) &&
                multiset(Live()) == multiset(old(Live())) - multiset{r}
      ensures !Registered(key)
    {
      ghost var s := Live();
      ghost var t := table[..];
      var i := 0;
      while i < count
        invariant 0 <= i <= count
        invariant forall j | 0 <= j < i :: s[j].key != key
      {
        if table[i].key == key {
          break;
        }
        i := i + 1;
      }
      if i == count {
        assert !HasKey(s, key);
        return null;
      }
      assert i == FirstMatch(s, key) by {
        var f := FirstMatch(s, key);
        assert !(f < i) && !(i < f);
      }
      r := table[i];
      count := count - 1;
      table[i] := table[count];
      SwapDeleteInPlace(t, count + 1, i);
      SwapDeleteMultiset(s, i);
      SwapDeleteKeepsDistinct(s, i);
    }
  }
}
