/** The document store of the catalogue server, as values.

    The store keeps an ordered array of document records and an index object
    that is meant to map each attachment id to the record's position in the
    array. JavaScript object keys are strings, but "263" and 263 name the same
    key, so keys are modelled as integers. Arrays follow JavaScript's rules:
    reading past the end or a hole gives `undefined` (here `None`), writing past
    the end lengthens the array with holes, and `splice(i, 1)` with `i` past the
    end removes nothing.

    This module gives every operation as a function of the store's state and
    proves what each one does to the index invariant. */
module DocumentModel {

  datatype Option<T> = None | Some(value: T)

  /** One document record. */
  datatype Doc = Doc(attachmentId: nat, fileName: string, dateAdded: string, fileSize: string)

  /** An array slot: a record, or `undefined` (a hole, or a read past the end). */
  type Slot = Option<Doc>

  /** What `get` returns: `false` when the id is not a key of the index,
      otherwise whatever the array holds at the indexed position. */
  datatype Lookup = NotIndexed | Entry(slot: Slot)

  /** The module state: the documents array and the index object. */
  datatype Store = Store(documents: seq<Slot>, index: map<int, nat>)

  /** The outcome of a state-changing operation: the new state and the
      boolean the operation returns. */
  datatype Step = Step(after: Store, ok: bool)

  // ---------------------------------------------------------------------------
  // JavaScript array primitives

  /** `documents[i]` for a non-negative index. */
  function Read(documents: seq<Slot>, i: nat): Slot {
    if i < |documents| then documents[i] else None
  }

  /** `documents.splice(i, 1)`: removes the element at `i`, if there is one,
      and moves every later element down by one place. */
  function Spliced(documents: seq<Slot>, i: nat): (r: seq<Slot>)
    ensures |r| == if i < |documents| then |documents| - 1 else |documents|
    ensures forall j :: 0 <= j < |r| ==> r[j] == if j < i then documents[j] else documents[j + 1]
  {
    if i < |documents| then documents[..i] + documents[i + 1..] else documents
  }

  /** `documents[i] = d`: replaces the element at `i`, or, when `i` is at or
      past the end, lengthens the array to `i + 1` with holes before `d`. */
  function Written(documents: seq<Slot>, i: nat, d: Doc): (r: seq<Slot>)
    ensures |r| == if i < |documents| then |documents| else i + 1
    ensures forall j :: 0 <= j < |r| ==> r[j] == if j == i then Some(d) else Read(documents, j)
  {
    if i < |documents| then documents[i := Some(d)]
    else documents + seq(i - |documents|, _ => None) + [Some(d)]
  }

  // ---------------------------------------------------------------------------
  // The index invariant

  /** Position `p` of the array holds the record whose attachment id is `id`. */
  predicate Carries(documents: seq<Slot>, p: nat, id: int) {
    p < |documents| && documents[p].Some? && documents[p].value.attachmentId == id
  }

  /** The index maps every attachment id to its record's position: each key
      points at the record carrying that id, and each position holds a record
      whose id is a key pointing back at that position. */
  predicate Consistent(s: Store) {
    && (forall k :: k in s.index ==> Carries(s.documents, s.index[k], k))
    && (forall p :: 0 <= p < |s.documents| ==>
          s.documents[p].Some? && s.documents[p].value.attachmentId in s.index
          && s.index[s.documents[p].value.attachmentId] == p)
  }

  // ---------------------------------------------------------------------------
  // The initial state

  function Initial(): (s: Store)
    ensures |s.documents| == 8
  {
    Store(
      [ Some(Doc(263, "Requirements spec 1.docx", "2009-10-06 11:46:12", "9.7 KB")),
        Some(Doc(264, "A dummy document.docx", "2009-10-07 11:46:12", "23.7 KB")),
        Some(Doc(265, "Test \"plan.doc", "2009-10-08 11:46:12", "30.0 KB")),
        Some(Doc(266, "Phone <list.xlsx", "2009-10-09 11:46:12", "220.2 KB")),
        Some(Doc(271, "det här är på svenska.docx", "2009-10-14 17:14:29", "9.7 KB")),
        Some(Doc(272, "error's are mine.png", "2009-10-16 18:58:28", "20.9 KB")),
        Some(Doc(273, "GUI - ugly error message.png", "2009-10-16 19:02:32", "13.8 KB")),
        Some(Doc(274, "message.txt", "2009-10-16 19:09:34", "1.0 KB")) ],
      map[263 := 0, 264 := 1, 265 := 2, 266 := 3, 271 := 4, 272 := 5, 273 := 6, 274 := 7])
  }

  // ---------------------------------------------------------------------------
  // Reads

  /** `get(id)`: `false` for an id that is not a key of the index, otherwise the
      array element at the indexed position (`undefined` past the end). */
  function Get(s: Store, id: int): (r: Lookup)
    ensures r.NotIndexed? <==> id !in s.index
    ensures id in s.index && s.index[id] >= |s.documents| ==> r == Entry(None)
    ensures Consistent(s) && id in s.index ==>
              r.Entry? && r.slot.Some? && r.slot.value.attachmentId == id
    ensures Consistent(s) ==>
              (r.Entry? <==> exists p :: 0 <= p < |s.documents| && Carries(s.documents, p, id))
  {
    if id !in s.index then NotIndexed else Entry(Read(s.documents, s.index[id]))
  }

  /** `getAll()`: the documents array, in storage order. */
  function GetAll(s: Store): (r: seq<Slot>)
    ensures Consistent(s) ==>
              forall k :: k in s.index ==> s.index[k] < |r| && Get(s, k) == Entry(r[s.index[k]])
  {
    s.documents
  }

  /** `length()`: the number of array elements; with a consistent index, the
      number of indexed ids. */
  function Length(s: Store): (n: nat)
    ensures n == |GetAll(s)|
    ensures Consistent(s) ==> n == |s.index|
  {
    IndexSizeMatchesLength(s);
    |s.documents|
  }

  // ---------------------------------------------------------------------------
  // Writes

  /** `insert(document)`: refused when the record's id is already a key;
      otherwise writes the key `documents.length` with the record's id as its
      value, then appends the record. */
  function Insert(s: Store, d: Doc): (r: Step)
    ensures r.ok <==> d.attachmentId !in s.index
    ensures !r.ok ==> r.after == s
    ensures r.ok ==>
              && |r.after.documents| == |s.documents| + 1
              && r.after.documents[..|s.documents|] == s.documents
              && r.after.documents[|s.documents|] == Some(d)
    ensures r.ok ==>
              && r.after.index.Keys == s.index.Keys + {|s.documents|}
              && r.after.index[|s.documents|] == d.attachmentId
              && forall k :: k in s.index && k != |s.documents| ==> r.after.index[k] == s.index[k]
  {
    if d.attachmentId in s.index then Step(s, false)
    else
      var after := Store(s.documents + [Some(d)], s.index[|s.documents| := d.attachmentId]);
      assert after.documents[..|s.documents|] == s.documents;
      Step(after, true)
  }

  /** `delete(id)`: refused for an id that is not a key; otherwise splices out
      the element at the indexed position and removes that one key. */
  function Delete(s: Store, id: int): (r: Step)
    ensures r.ok <==> id in s.index
    ensures !r.ok ==> r.after == s
    ensures r.ok ==> r.after.documents == Spliced(s.documents, s.index[id])
    ensures r.ok ==>
              && r.after.index.Keys == s.index.Keys - {id}
              && forall k :: k in r.after.index ==> r.after.index[k] == s.index[k]
  {
    if id !in s.index then Step(s, false)
    else Step(Store(Spliced(s.documents, s.index[id]), s.index - {id}), true)
  }

  /** `update(id, d)`: refused for an id that is not a key; otherwise assigns
      `d` to the array slot at the indexed position. The index is untouched. */
  function Update(s: Store, id: int, d: Doc): (r: Step)
    ensures r.ok <==> id in s.index
    ensures !r.ok ==> r.after == s
    ensures r.ok ==> r.after.index == s.index
    ensures r.ok ==> r.after.documents == Written(s.documents, s.index[id], d)
  {
    if id !in s.index then Step(s, false)
    else Step(Store(Written(s.documents, s.index[id], d), s.index), true)
  }

  // ---------------------------------------------------------------------------
  // Lemmas

  /** The initial state satisfies the invariant, and its keys are exactly the
      eight attachment ids. */
  lemma InitialConsistent()
    ensures Consistent(Initial())
    ensures Initial().index.Keys == {263, 264, 265, 266, 271, 272, 273, 274}
  {
    var s := Initial();
    assert s.index.Keys == {263, 264, 265, 266, 271, 272, 273, 274};
    forall k | k in s.index ensures Carries(s.documents, s.index[k], k) {
      assert k in {263, 264, 265, 266, 271, 272, 273, 274};
    }
    forall p | 0 <= p < |s.documents|
      ensures s.documents[p].Some? && s.documents[p].value.attachmentId in s.index
              && s.index[s.documents[p].value.attachmentId] == p
    {
      assert p in {0, 1, 2, 3, 4, 5, 6, 7};
    }
  }

  /** Dropping the last record and its key keeps a consistent store consistent. */
  lemma DropLastConsistent(s: Store)
    requires Consistent(s) && |s.documents| > 0
    ensures var n := |s.documents|;
            var last := s.documents[n - 1].value.attachmentId;
            last in s.index && s.index[last] == n - 1
            && Consistent(Store(s.documents[..n - 1], s.index - {last}))
  {
    var n := |s.documents|;
    var last := s.documents[n - 1].value.attachmentId;
    var t := Store(s.documents[..n - 1], s.index - {last});
    forall k | k in t.index ensures Carries(t.documents, t.index[k], k) {
      assert Carries(s.documents, s.index[k], k);
      assert s.index[k] != n - 1;
    }
  }

  /** With a consistent index there are exactly as many keys as records. */
  lemma {:induction false} IndexSizeMatchesLength(s: Store)
    ensures Consistent(s) ==> |s.index| == |s.documents|
    decreases |s.documents|
  {
    if Consistent(s) {
      var n := |s.documents|;
      if n == 0 {
        assert forall k :: k in s.index ==> !Carries(s.documents, s.index[k], k);
        assert s.index.Keys == {};
      } else {
        DropLastConsistent(s);
        var last := s.documents[n - 1].value.attachmentId;
        var t := Store(s.documents[..n - 1], s.index - {last});
        IndexSizeMatchesLength(t);
        assert s.index.Keys == t.index.Keys + {last};
      }
    }
  }

  /** `update` of an indexed id keeps the invariant exactly when the new record
      carries that same id; in either case `get(id)` then returns it, and every
      other position keeps its record. */
  lemma UpdateKeepsConsistent(s: Store, id: int, d: Doc)
    requires Consistent(s) && id in s.index
    ensures var t := Update(s, id, d).after;
            && (Consistent(t) <==> d.attachmentId == id)
            && Get(t, id) == Entry(Some(d))
            && |t.documents| == |s.documents|
            && forall p :: 0 <= p < |s.documents| && p != s.index[id] ==> t.documents[p] == s.documents[p]
  {
    var t := Update(s, id, d).after;
    var p := s.index[id];
    assert Carries(s.documents, p, id);
    if d.attachmentId == id {
      forall k | k in t.index ensures Carries(t.documents, t.index[k], k) {
        assert Carries(s.documents, s.index[k], k);
      }
    } else {
      assert !Carries(t.documents, t.index[id], id);
    }
  }

  /** `insert` of a fresh id into a consistent store: the record is findable
      through `get`, and the invariant survives, only when its id happens to
      equal the old length; otherwise `get` reports the id as absent. The new
      key (the old length) leads to the array element at the record's id. */
  lemma InsertOutcome(s: Store, d: Doc)
    requires Consistent(s) && d.attachmentId !in s.index
    ensures var n := |s.documents|;
            var t := Insert(s, d).after;
            && (Consistent(t) <==> d.attachmentId == n)
            && Get(t, d.attachmentId) == (if d.attachmentId == n then Entry(Some(d)) else NotIndexed)
            && Get(t, n) == Entry(Read(t.documents, d.attachmentId))
  {
    var n := |s.documents|;
    var t := Insert(s, d).after;
    assert t.documents[n] == Some(d);
    if d.attachmentId == n {
      assert n !in s.index;
      forall k | k in t.index ensures Carries(t.documents, t.index[k], k) {
        if k != n {
          assert Carries(s.documents, s.index[k], k);
        }
      }
      forall p | 0 <= p < |t.documents|
        ensures t.documents[p].Some? && t.documents[p].value.attachmentId in t.index
                && t.index[t.documents[p].value.attachmentId] == p
      {
        if p < n {
          assert t.documents[p] == s.documents[p];
        }
      }
    } else {
      assert d.attachmentId !in t.index;
    }
  }

  /** `delete` of an indexed id from a consistent store: the id is gone, every
      record before the removed position is still found, but every other key
      still holds its old position and so leads to the record one place
      further on. The invariant survives only when the last record is deleted. */
  lemma DeleteOutcome(s: Store, id: int)
    requires Consistent(s) && id in s.index
    ensures var p := s.index[id];
            var t := Delete(s, id).after;
            && Get(t, id) == NotIndexed
            && (forall k :: k in s.index && k != id ==>
                  Get(t, k) == Entry(if s.index[k] < p then s.documents[s.index[k]]
                                     else Read(s.documents, s.index[k] + 1)))
            && (Consistent(t) <==> p == |s.documents| - 1)
  {
    var n := |s.documents|;
    var p := s.index[id];
    var t := Delete(s, id).after;
    assert Carries(s.documents, p, id);
    forall k | k in s.index && k != id
      ensures Get(t, k) == Entry(if s.index[k] < p then s.documents[s.index[k]]
                                 else Read(s.documents, s.index[k] + 1))
    {
      assert Carries(s.documents, s.index[k], k);
    }
    if p == n - 1 {
      DropLastConsistent(s);
      assert t.documents == s.documents[..n - 1];
    } else {
      var k := s.documents[p + 1].value.attachmentId;
      assert s.index[k] == p + 1;
      assert k in t.index && t.index[k] == p + 1;
      if p + 2 < n {
        var k2 := s.documents[p + 2].value.attachmentId;
        assert s.index[k2] == p + 2;
        assert t.documents[p + 1] == s.documents[p + 2];
      }
      assert !Carries(t.documents, t.index[k], k);
    }
  }

  /** From the initial state, `delete(264)` then `get(265)` returns the record
      of attachment 266: the stale key 265 still holds position 2. */
  lemma DeleteThenGetWitness()
    ensures Get(Delete(Initial(), 264).after, 265)
            == Entry(Some(Doc(266, "Phone <list.xlsx", "2009-10-09 11:46:12", "220.2 KB")))
    ensures Get(Delete(Initial(), 264).after, 264) == NotIndexed
    ensures Get(Delete(Initial(), 264).after, 274) == Entry(None)
  {
    var t := Delete(Initial(), 264).after;
    assert t.documents[2] == Initial().documents[3];
  }

  /** From the initial state, inserting a record with the fresh id 300 succeeds,
      yet `get(300)` returns `false`, and the new key 8 leads past the end. */
  lemma InsertThenGetWitness(d: Doc)
    requires d.attachmentId == 300
    ensures Insert(Initial(), d).ok
    ensures Get(Insert(Initial(), d).after, 300) == NotIndexed
    ensures Get(Insert(Initial(), d).after, 8) == Entry(None)
  {
    InitialConsistent();
  }
}
