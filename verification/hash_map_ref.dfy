/** The reference map that the hash map is compared with: an array of entries, searched linearly. */
module HashMapRef {
  import opened Probing

  datatype Entry = Entry(key: Word, value: Word)

  /** The entries are those of m, each key once. */
  ghost predicate Lists(s: seq<Entry>, m: map<Word, Word>) {
    && (forall i :: 0 <= i < |s| ==> s[i].key in m && m[s[i].key] == s[i].value)
    && (forall i, j :: 0 <= i < j < |s| ==> s[i].key != s[j].key)
    && (forall k :: k in m ==> exists i :: 0 <= i < |s| && s[i].key == k)
  }

  lemma ListsPut(s: seq<Entry>, m: map<Word, Word>, i: nat, value: Word)
    requires Lists(s, m) && i < |s|
    ensures Lists(s[i := s[i].(value := value)], m[s[i].key := value])
  {
    var s', m' := s[i := s[i].(value := value)], m[s[i].key := value];
    forall k | k in m' ensures exists j :: 0 <= j < |s'| && s'[j].key == k {
      var j :| 0 <= j < |s| && s[j].key == k;
      assert s'[j].key == k;
    }
  }

  lemma ListsAppend(s: seq<Entry>, m: map<Word, Word>, key: Word, value: Word)
    requires Lists(s, m) && forall i :: 0 <= i < |s| ==> s[i].key != key
    ensures key !in m
    ensures Lists(s + [Entry(key, value)], m[key := value])
  {
    var s', m' := s + [Entry(key, value)], m[key := value];
    forall k | k in m' ensures exists j :: 0 <= j < |s'| && s'[j].key == k {
      if k == key {
        assert s'[|s|].key == k;
      } else {
        var j :| 0 <= j < |s| && s[j].key == k;
        assert s'[j].key == k;
      }
    }
  }

  /** Removing entry i by moving the last entry into its place. */
  lemma ListsSwapRemove(s: seq<Entry>, m: map<Word, Word>, i: nat)
    requires Lists(s, m) && i < |s|
    ensures Lists(s[i := s[|s| - 1]][..|s| - 1], m - {s[i].key})
  {
    var l := |s| - 1;
    var s', m' := s[i := s[l]][..l], m - {s[i].key};
    forall k | k in m' ensures exists j :: 0 <= j < |s'| && s'[j].key == k {
      var j :| 0 <= j < |s| && s[j].key == k;
      assert s'[if j == l then i else j].key == k;
    }
  }

  lemma {:induction false} ListsSize(s: seq<Entry>, m: map<Word, Word>)
    requires Lists(s, m)
    ensures |m| == |s|
  {
    if s == [] {
      assert forall k :: k !in m;
      assert m == map[];
    } else {
      var l := |s| - 1;
      ListsFront(s, m);
      ListsSize(s[..l], m - {s[l].key});
      OneLess(m, s[l].key);
    }
  }

  lemma ListsFront(s: seq<Entry>, m: map<Word, Word>)
    requires Lists(s, m) && s != []
    ensures Lists(s[..|s| - 1], m - {s[|s| - 1].key})
  {
    var l := |s| - 1;
    ListsSwapRemove(s, m, l);
    assert s[l := s[l]][..l] == s[..l];
  }

  /** The capacity behind the insertion of a new key: eight at first, doubled whenever the array is full. */
  function Grown(count: nat, capacity: nat): (n: nat)
    ensures count <= capacity ==> count < n
    ensures count < capacity ==> n == capacity
    ensures 0 < count == capacity ==> n == 2 * capacity
    ensures count == capacity == 0 ==> n == 8
  {
    if capacity == 0 then 8 else if count == capacity then 2 * capacity else capacity
  }

  class Table {
    var entries: array?<Entry>
    var count: nat
    var capacity: nat
    ghost var contents: map<Word, Word>

    ghost predicate Valid()
      reads this, entries
    {
      if entries == null then count == capacity == 0 && contents == map[]
      else capacity == entries.Length > 0 && count <= capacity && Lists(entries[..count], contents)
    }

    /** hashmapref_create */
    constructor ()
      ensures Valid() && contents == map[] && entries == null
    {
      entries := null;
      count, capacity := 0, 0;
      contents := map[];
    }

    /** The linear search: the first entry with the key, count if there is none. */
    method Search(key: Word) returns (i: nat)
      requires Valid()
      ensures i <= count
      ensures i < count ==> entries != null && entries[i].key == key
      ensures i < count <==> key in contents
      ensures entries != null ==> forall j :: 0 <= j < i ==> entries[j].key != key
    {
      i := 0;
      while i < count && entries[i].key != key
        invariant i <= count
        invariant entries != null ==> forall j :: 0 <= j < i ==> entries[j].key != key
      {
        i := i + 1;
      }
      if i < count {
        assert entries[..count][i].key in contents;
      } else if entries != null {
        assert forall j :: 0 <= j < |entries[..count]| ==> entries[..count][j].key != key;
      }
    }

    /** hashmapref_insert */
    method Insert(key: Word, value: Word)
      requires Valid()
      modifies this, entries
      ensures Valid() && (entries == old(entries) || fresh(entries))
      ensures contents == old(contents)[key := value]
      ensures capacity == if key in old(contents) then old(capacity) else Grown(old(count), old(capacity))
    {
      var i := Search(key);
      if i < count {
        ghost var s := entries[..count];
        entries[i] := entries[i].(value := value);
        ListsPut(s, contents, i, value);
        assert entries[..count] == s[i := s[i].(value := value)];
        contents := contents[key := value];
        return;
      }
      ghost var s: seq<Entry> := if entries == null then [] else entries[..count];
      assert Lists(s, contents) && forall j :: 0 <= j < |s| ==> s[j].key != key;
      MakeRoom(s);
      entries[count] := Entry(key, value);
      count := count + 1;
      assert entries[..count] == s + [Entry(key, value)];
      ListsAppend(s, contents, key, value);
      contents := contents[key := value];
    }

    /** The growth of the array: eight entries at first, then twice as many whenever it is full. */
    method MakeRoom(ghost s: seq<Entry>)
      requires Valid() && s == if entries == null then [] else entries[..count]
      modifies this
      ensures Valid() && entries != null && (entries == old(entries) || fresh(entries))
      ensures count == old(count) < capacity && entries[..count] == s && contents == old(contents)
      ensures capacity == Grown(old(count), old(capacity))
    {
      if entries == null {
        entries := new Entry[8](_ => Entry(0, 0));
        count, capacity := 0, 8;
      } else if count == capacity {
        entries := Copied(2 * capacity, s);
        capacity := 2 * capacity;
      }
    }

    /** A larger array with the same entries in front. */
    method Copied(newCapacity: nat, ghost s: seq<Entry>) returns (bigger: array<Entry>)
      requires entries != null && count <= entries.Length && count <= newCapacity && s == entries[..count]
      ensures fresh(bigger) && bigger.Length == newCapacity && bigger[..count] == s
    {
      bigger := new Entry[newCapacity](_ => Entry(0, 0));
      for i := 0 to count
        invariant bigger[..i] == s[..i]
      {
        bigger[i] := entries[i];
      }
    }

    /** hashmapref_remove */
    method Remove(key: Word) returns (ok: bool)
      requires Valid()
      modifies this, entries
      ensures Valid() && entries == old(entries)
      ensures ok <==> key in old(contents)
      ensures contents == old(contents) - {key}
    {
      var i := Search(key);
      if i == count {
        assert contents - {key} == contents;
        return false;
      }
      ghost var s := entries[..count];
      ListsSwapRemove(s, contents, i);
      entries[i] := entries[count - 1];
      count := count - 1;
      assert entries[..count] == s[i := s[|s| - 1]][..|s| - 1];
      contents := contents - {key};
      return true;
    }

    /** hashmapref_select */
    method Select(key: Word) returns (value: Word)
      requires Valid()
      ensures value == if key in contents then contents[key] else 0
    {
      var i := Search(key);
      if i == count { return 0; }
      assert entries[..count][i].key == key;
      return entries[i].value;
    }

    /** hashmapref_count */
    method Count() returns (n: nat)
      requires Valid()
      ensures n == count == |contents|
    {
      if entries != null { ListsSize(entries[..count], contents); }
      return count;
    }
  }
}
