/** `AddressBook`: records keyed by contact name. Python's dict iterates in
    insertion order, and the birthday report follows that order, so the book
    keeps the keys in `order` next to the map: overwriting an existing key
    keeps its place, deleting a key removes it from the order. */
module AddressBooks {
  import opened Results
  import opened Sequences
  import opened Records

  datatype AddressBook = AddressBook(data: map<string, Record>, order: seq<string>)

  const EmptyBook: AddressBook := AddressBook(map[], [])

  /** `order` lists each key of `data` once, and every record is stored under
      its own name and is well formed. */
  ghost predicate Valid(b: AddressBook) {
    && (forall i, j :: 0 <= i < j < |b.order| ==> b.order[i] != b.order[j])
    && (forall k :: k in b.order <==> k in b.data)
    && (forall k :: k in b.data ==> b.data[k].name == k && WellFormed(b.data[k]))
  }

  lemma EmptyBookValid()
    ensures Valid(EmptyBook)
  {
  }

  /** `find(name)`: `dict.get`, so an absent name gives None rather than raising. */
  function Find(b: AddressBook, name: string): (found: Option<Record>)
    ensures found.None? <==> name !in b.data
    ensures found.Some? ==> name in b.data && found.value == b.data[name]
  {
    if name in b.data then Some(b.data[name]) else None
  }

  /** `add_record(record)`: stores the record under its name, replacing any
      record already there. */
  function AddRecord(b: AddressBook, r: Record): (b': AddressBook)
    ensures Find(b', r.name) == Some(r)
    ensures forall k :: k != r.name ==> Find(b', k) == Find(b, k)
    ensures r.name in b.data ==> b'.order == b.order
    ensures r.name !in b.data ==> b'.order == b.order + [r.name]
    ensures Valid(b) && WellFormed(r) ==> Valid(b')
  {
    AddressBook(b.data[r.name := r], if r.name in b.data then b.order else b.order + [r.name])
  }

  /** Writes back a record that a method changed in place: the same key, the
      same position in the order. */
  function Store(b: AddressBook, name: string, r: Record): (b': AddressBook)
    requires name in b.data
    ensures Find(b', name) == Some(r)
    ensures forall k :: k != name ==> Find(b', k) == Find(b, k)
    ensures b'.order == b.order
    ensures Valid(b) && r.name == name && WellFormed(r) ==> Valid(b')
  {
    AddressBook(b.data[name := r], b.order)
  }

  /** The keys of `ks` other than `k`, in their order. */
  function RemoveKey(ks: seq<string>, k: string): (ks': seq<string>)
    ensures forall x :: x in ks' <==> x in ks && x != k
    ensures IsSubsequence(ks', ks)
    ensures (forall i, j :: 0 <= i < j < |ks| ==> ks[i] != ks[j]) ==>
              forall i, j :: 0 <= i < j < |ks'| ==> ks'[i] != ks'[j]
    ensures k !in ks ==> ks' == ks
  {
    if |ks| == 0 then []
    else
      var rest := RemoveKey(ks[1..], k);
      assert ks == [ks[0]] + ks[1..];
      if ks[0] == k then
        SkipHead(rest, ks);
        rest
      else
        assert (forall i, j :: 0 <= i < j < |ks| ==> ks[i] != ks[j]) ==> ks[0] !in ks[1..] by {
          if ks[0] in ks[1..] {
            var j :| 0 <= j < |ks[1..]| && ks[1..][j] == ks[0];
            assert ks[j + 1] == ks[0];
          }
        }
        [ks[0]] + rest
  }

  /** `delete(name)`: removes that key only; a no-op when it is absent. */
  function Delete(b: AddressBook, name: string): (b': AddressBook)
    ensures Find(b', name) == None
    ensures forall k :: k != name ==> Find(b', k) == Find(b, k)
    ensures IsSubsequence(b'.order, b.order)
    ensures Valid(b) ==> Valid(b')
    ensures Valid(b) && name !in b.data ==> b' == b
  {
    AddressBook(b.data - {name}, RemoveKey(b.order, name))
  }
}
