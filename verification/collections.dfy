/** The in-memory list operations the pages perform on their local state:
    append with a fresh id, replace by id, delete by id and filtering. */
module Collections {
  import opened Schema

  /** A listed entity (person or activity): its numeric id and its other attributes. */
  datatype Record = Record(id: int, attrs: map<string, string>)

  /** `xs.filter(keep)`: the elements that pass, in their order. */
  function Filter<T(!new)>(xs: seq<T>, keep: T -> bool): (r: seq<T>)
    ensures forall x :: x in r <==> x in xs && keep(x)
    ensures |r| <= |xs|
  {
    if xs == [] then []
    else if keep(xs[0]) then [xs[0]] + Filter(xs[1..], keep)
    else Filter(xs[1..], keep)
  }

  /** Filtering distributes over concatenation: the survivors keep their relative order. */
  lemma {:induction false} FilterAppend<T(!new)>(a: seq<T>, b: seq<T>, keep: T -> bool)
    ensures Filter(a + b, keep) == Filter(a, keep) + Filter(b, keep)
  {
    if a == [] {
      assert a + b == b;
    } else {
      assert (a + b)[1..] == a[1..] + b;
      FilterAppend(a[1..], b, keep);
    }
  }

  /** A filter that everything passes keeps the whole list. */
  lemma {:induction false} FilterKeepsAll<T(!new)>(xs: seq<T>, keep: T -> bool)
    requires forall i :: 0 <= i < |xs| ==> keep(xs[i])
    ensures Filter(xs, keep) == xs
  {
    if xs != [] {
      FilterKeepsAll(xs[1..], keep);
    }
  }

  /** `Math.max(...rs.map(p => p.id))` over a non-empty list. */
  function MaxId(rs: seq<Record>): (m: int)
    requires |rs| > 0
    ensures forall i :: 0 <= i < |rs| ==> rs[i].id <= m
    ensures exists i :: 0 <= i < |rs| && rs[i].id == m
  {
    if |rs| == 1 then rs[0].id
    else
      var m := MaxId(rs[1..]);
      assert forall i :: 1 <= i < |rs| ==> rs[i] == rs[1..][i - 1];
      if rs[0].id > m then rs[0].id else m
  }

  /** `[...rs, { id: max + 1, ...attrs }]`: one new record at the end whose id
      is one more than the largest id present, the old entries untouched. */
  function AppendFresh(rs: seq<Record>, attrs: map<string, string>): (r: seq<Record>)
    requires |rs| > 0
    ensures |r| == |rs| + 1
    ensures r[..|rs|] == rs
    ensures r[|rs|].attrs == attrs
    ensures forall i :: 0 <= i < |rs| ==> rs[i].id < r[|rs|].id
    ensures r[|rs|].id == MaxId(rs) + 1
  {
    rs + [Record(MaxId(rs) + 1, attrs)]
  }

  /** `rs.map(p => p.id === id ? replacement : p)`. */
  function ReplaceById(rs: seq<Record>, id: int, replacement: Record): (r: seq<Record>)
    ensures |r| == |rs|
    ensures forall i :: 0 <= i < |rs| ==> r[i] == (if rs[i].id == id then replacement else rs[i])
  {
    if rs == [] then []
    else [if rs[0].id == id then replacement else rs[0]] + ReplaceById(rs[1..], id, replacement)
  }

  /** `rs.filter(p => p.id !== id)`. */
  function DeleteById(rs: seq<Record>, id: int): seq<Record> {
    Filter(rs, (x: Record) => x.id != id)
  }

  /** Deleting keeps exactly the entries whose id differs. */
  lemma DeleteByIdMembers(rs: seq<Record>, id: int)
    ensures forall x :: x in DeleteById(rs, id) <==> x in rs && x.id != id
  {
  }

  /** The entries carrying a given id. */
  function WithId(rs: seq<Record>, id: int): seq<Record> {
    Filter(rs, (x: Record) => x.id == id)
  }

  /** Deleting removes exactly the entries with that id: what is left and what
      carried the id add up to the whole list. */
  lemma {:induction false} DeleteByIdCount(rs: seq<Record>, id: int)
    ensures |DeleteById(rs, id)| + |WithId(rs, id)| == |rs|
  {
    if rs != [] {
      DeleteByIdCount(rs[1..], id);
    }
  }

  /** Deleting from a concatenation deletes from each part, so the survivors stay in order. */
  lemma DeleteByIdAppend(a: seq<Record>, b: seq<Record>, id: int)
    ensures DeleteById(a + b, id) == DeleteById(a, id) + DeleteById(b, id)
  {
    FilterAppend(a, b, (x: Record) => x.id != id);
  }

  /** Deleting an id nobody has leaves the list as it was. */
  lemma DeleteAbsentId(rs: seq<Record>, id: int)
    requires forall i :: 0 <= i < |rs| ==> rs[i].id != id
    ensures DeleteById(rs, id) == rs
  {
    FilterKeepsAll(rs, (x: Record) => x.id != id);
  }

  /** Deleting a record appended under an unused id restores the list. */
  lemma DeleteUndoesSnoc(rs: seq<Record>, added: Record)
    requires forall i :: 0 <= i < |rs| ==> rs[i].id != added.id
    ensures DeleteById(rs + [added], added.id) == rs
  {
    DeleteByIdAppend(rs, [added], added.id);
    DeleteAbsentId(rs, added.id);
    assert [added][1..] == [];
  }

  /** Deleting the record just appended restores the list. */
  lemma DeleteUndoesAppend(rs: seq<Record>, attrs: map<string, string>)
    requires |rs| > 0
    ensures var added := AppendFresh(rs, attrs); DeleteById(added, added[|rs|].id) == rs
  {
    DeleteUndoesSnoc(rs, Record(MaxId(rs) + 1, attrs));
  }

  /** Replacing an id nobody has leaves the list as it was. */
  lemma ReplaceAbsentId(rs: seq<Record>, id: int, replacement: Record)
    requires forall i :: 0 <= i < |rs| ==> rs[i].id != id
    ensures ReplaceById(rs, id, replacement) == rs
  {
  }

  /** Replacing with a record that keeps the id is idempotent. */
  lemma ReplaceByIdIdempotent(rs: seq<Record>, replacement: Record)
    ensures ReplaceById(ReplaceById(rs, replacement.id, replacement), replacement.id, replacement)
         == ReplaceById(rs, replacement.id, replacement)
  {
  }

  /** The values of a list whose every element is present. */
  function Present<T>(xs: seq<Option<T>>): (r: seq<T>)
    requires forall i :: 0 <= i < |xs| ==> xs[i].Some?
    ensures |r| == |xs| && forall i :: 0 <= i < |xs| ==> xs[i] == Some(r[i])
  {
    seq(|xs|, i requires 0 <= i < |xs| && xs[i].Some? => xs[i].value)
  }

  /** `xs.filter(keep)` over a loaded JSON array whose elements the callback
      may fail to read (`None`: a `null` element, or one missing the field
      the callback dereferences). The callback runs on every element, so the
      filter throws (`None`) exactly when such an element is present;
      otherwise it keeps the passing values. */
  function FilterReadable<T(!new)>(xs: seq<Option<T>>, keep: T -> bool): (r: Option<seq<T>>)
    ensures r.None? <==> exists i :: 0 <= i < |xs| && xs[i].None?
    ensures r.Some? ==> forall x :: x in r.value <==> Some(x) in xs && keep(x)
  {
    if xs == [] then Some([])
    else
      match xs[0]
      case None => None
      case Some(x) =>
        var rest := FilterReadable(xs[1..], keep);
        assert forall i :: 1 <= i < |xs| ==> xs[i] == xs[1..][i - 1];
        assert forall e :: e in xs <==> e == xs[0] || e in xs[1..];
        match rest
        case None => None
        case Some(kept) => Some(if keep(x) then [x] + kept else kept)
  }

  /** On a list whose elements are all readable, the filter is `Filter` of
      the values, so the survivors keep their order. */
  lemma {:induction false} FilterReadableAgrees<T(!new)>(xs: seq<Option<T>>, keep: T -> bool)
    requires forall i :: 0 <= i < |xs| ==> xs[i].Some?
    ensures FilterReadable(xs, keep) == Some(Filter(Present(xs), keep))
  {
    if xs != [] {
      assert Present(xs)[1..] == Present(xs[1..]);
      FilterReadableAgrees(xs[1..], keep);
    }
  }

  /** The record an edit dialog holds (`editingPerson`, `editingActivity`)
      when it is not `null`. Its id is absent when a keystroke started the
      buffer with no record selected. */
  datatype EditBuffer = EditBuffer(id: Option<int>, attrs: map<string, string>)

  /** The list after saving an edit buffer, `rs.map(p => p.id === b.id ? b : p)`:
      the entries with its id become the buffer's record; a buffer without
      an id matches no entry. */
  function SaveEdit(rs: seq<Record>, b: EditBuffer): (r: seq<Record>)
    ensures |r| == |rs|
    ensures forall i :: 0 <= i < |rs| ==>
      r[i] == (if Some(rs[i].id) == b.id then Record(rs[i].id, b.attrs) else rs[i])
  {
    match b.id
    case Some(id) => ReplaceById(rs, id, Record(id, b.attrs))
    case None => rs
  }
}
