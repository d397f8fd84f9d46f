/** Keyed-table operations on an ordered sequence of employee records. The
    mock server's store and the view's list are both such a sequence; the
    functions here are the lookup, the by-id replacement and the by-id
    removal that both of them perform. */
module Table {
  import opened Employees

  /** No record of `rows` carries `id`. */
  predicate Fresh(rows: seq<Employee>, id: string)
  {
    forall j :: 0 <= j < |rows| ==> rows[j].id != id
  }

  /** Ids are a key: no two records share one. */
  predicate UniqueIds(rows: seq<Employee>)
  {
    forall i, j :: 0 <= i < j < |rows| ==> rows[i].id != rows[j].id
  }

  /** Position of the first record with `id`, if any. */
  function IndexOf(rows: seq<Employee>, id: string): (r: Option<nat>)
    ensures r.Some? ==> r.value < |rows| && rows[r.value].id == id
    ensures r.Some? ==> forall j :: 0 <= j < r.value ==> rows[j].id != id
    ensures r.None? <==> Fresh(rows, id)
  {
    if |rows| == 0 then None
    else if rows[0].id == id then Some(0)
    else match IndexOf(rows[1..], id)
      case None => None
      case Some(k) => Some(k + 1)
  }

  /** Find-by-id: the record with `id`, or None when there is none. */
  function Find(rows: seq<Employee>, id: string): (r: Option<Employee>)
    ensures r.Some? ==> r.value in rows && r.value.id == id
    ensures r.None? <==> Fresh(rows, id)
  {
    match IndexOf(rows, id)
    case None => None
    case Some(i) => Some(rows[i])
  }

  /** Removes the record at position `i`. */
  function RemoveAt(rows: seq<Employee>, i: nat): (r: seq<Employee>)
    requires i < |rows|
    ensures |r| == |rows| - 1
    ensures forall k :: 0 <= k < i ==> r[k] == rows[k]
    ensures forall k :: i <= k < |r| ==> r[k] == rows[k + 1]
  {
    rows[..i] + rows[i + 1..]
  }

  /** Every record whose id equals `e.id` is replaced by `e`; the rest stay. */
  function ReplaceById(rows: seq<Employee>, e: Employee): (r: seq<Employee>)
    ensures |r| == |rows|
    ensures forall k :: 0 <= k < |rows| ==> r[k] == (if rows[k].id == e.id then e else rows[k])
  {
    if |rows| == 0 then []
    else [if rows[0].id == e.id then e else rows[0]] + ReplaceById(rows[1..], e)
  }

  /** Keeps exactly the records whose id differs from `id`, in their order. */
  function RemoveById(rows: seq<Employee>, id: string): (r: seq<Employee>)
    ensures |r| <= |rows|
    ensures Fresh(r, id)
  {
    if |rows| == 0 then []
    else (if rows[0].id == id then [] else [rows[0]]) + RemoveById(rows[1..], id)
  }

  /** With unique ids, the first match is the only match. */
  lemma IndexOfUnique(rows: seq<Employee>, i: nat)
    requires UniqueIds(rows) && i < |rows|
    ensures IndexOf(rows, rows[i].id) == Some(i)
  {
  }

  /** Removal by id distributes over concatenation, so it keeps relative order. */
  lemma {:induction false} RemoveByIdConcat(a: seq<Employee>, b: seq<Employee>, id: string)
    ensures RemoveById(a + b, id) == RemoveById(a, id) + RemoveById(b, id)
  {
    if |a| == 0 {
      assert a + b == b;
    } else {
      assert (a + b)[1..] == a[1..] + b;
      RemoveByIdConcat(a[1..], b, id);
    }
  }

  /** Removal of an absent id changes nothing. */
  lemma {:induction false} RemoveByIdFresh(rows: seq<Employee>, id: string)
    requires Fresh(rows, id)
    ensures RemoveById(rows, id) == rows
  {
    if |rows| > 0 {
      RemoveByIdFresh(rows[1..], id);
    }
  }

  /** Removal keeps exactly the records with another id. */
  lemma {:induction false} RemoveByIdMembers(rows: seq<Employee>, id: string)
    ensures forall e :: e in RemoveById(rows, id) <==> e in rows && e.id != id
  {
    if |rows| > 0 {
      RemoveByIdMembers(rows[1..], id);
      assert rows == [rows[0]] + rows[1..];
    }
  }

  /** Removal keeps each surviving record as often as it occurred. */
  lemma {:induction false} RemoveByIdCounts(rows: seq<Employee>, id: string, e: Employee)
    ensures multiset(RemoveById(rows, id))[e] == if e.id == id then 0 else multiset(rows)[e]
  {
    if |rows| > 0 {
      RemoveByIdCounts(rows[1..], id, e);
      assert rows == [rows[0]] + rows[1..];
    }
  }

  /** Replacement of an absent id changes nothing. */
  lemma ReplaceByIdFresh(rows: seq<Employee>, e: Employee)
    requires Fresh(rows, e.id)
    ensures ReplaceById(rows, e) == rows
  {
  }

  /** With unique ids, removing by id removes exactly the one record found. */
  lemma RemoveByIdUnique(rows: seq<Employee>, id: string, i: nat)
    requires UniqueIds(rows) && IndexOf(rows, id) == Some(i)
    ensures RemoveById(rows, id) == RemoveAt(rows, i)
  {
    SuffixFresh(rows, i);
    assert rows == rows[..i] + [rows[i]] + rows[i + 1..];
    RemoveTheOne(rows[..i], rows[i], rows[i + 1..], id);
  }

  /** Removing by id from `pre + [x] + post`, where only `x` has the id. */
  lemma RemoveTheOne(pre: seq<Employee>, x: Employee, post: seq<Employee>, id: string)
    requires Fresh(pre, id) && x.id == id && Fresh(post, id)
    ensures RemoveById(pre + [x] + post, id) == pre + post
  {
    var tail := [x] + post;
    assert pre + [x] + post == pre + tail;
    assert RemoveById(tail, id) == post by {
      assert tail[0] == x && tail[1..] == post;
      RemoveByIdFresh(post, id);
    }
    RemoveByIdConcat(pre, tail, id);
    RemoveByIdFresh(pre, id);
  }

  /** With unique ids, nothing before position `k` shares the id at `k`. */
  lemma PrefixFresh(rows: seq<Employee>, k: nat)
    requires UniqueIds(rows) && k < |rows|
    ensures Fresh(rows[..k], rows[k].id)
  {
  }

  /** With unique ids, nothing after position `i` shares the id at `i`. */
  lemma SuffixFresh(rows: seq<Employee>, i: nat)
    requires UniqueIds(rows) && i < |rows|
    ensures Fresh(rows[i + 1..], rows[i].id)
  {
    var post := rows[i + 1..];
    forall j | 0 <= j < |post|
      ensures post[j].id != rows[i].id
    {
      assert post[j] == rows[i + 1 + j];
    }
  }

  /** With unique ids, replacing by id replaces exactly the one record found. */
  lemma ReplaceByIdUnique(rows: seq<Employee>, e: Employee, i: nat)
    requires UniqueIds(rows) && IndexOf(rows, e.id) == Some(i)
    ensures ReplaceById(rows, e) == rows[i := e]
  {
    forall k | 0 <= k < |rows|
      ensures ReplaceById(rows, e)[k] == rows[i := e][k]
    {
      if k != i && rows[k].id == e.id {
        assert k < i || rows[i].id != rows[k].id;
      }
    }
  }

  /** Appending a record with a fresh id keeps ids unique, and looking the
      new id up finds exactly that record. */
  lemma AppendFresh(rows: seq<Employee>, e: Employee)
    requires UniqueIds(rows) && Fresh(rows, e.id)
    ensures UniqueIds(rows + [e])
    ensures Find(rows + [e], e.id) == Some(e)
    ensures forall id :: id != e.id ==> Find(rows + [e], id) == Find(rows, id)
  {
    IndexOfUnique(rows + [e], |rows|);
    forall id | id != e.id
      ensures Find(rows + [e], id) == Find(rows, id)
    {
      IndexOfPrefix(rows, [e], id);
    }
  }

  /** Looking up an id that the prefix holds, or that the suffix lacks, sees
      only the prefix. */
  lemma {:induction false} IndexOfPrefix(a: seq<Employee>, b: seq<Employee>, id: string)
    requires !Fresh(a, id) || Fresh(b, id)
    ensures IndexOf(a + b, id) == IndexOf(a, id)
  {
    if |a| == 0 {
      assert a + b == b;
    } else {
      assert (a + b)[1..] == a[1..] + b;
      if a[0].id != id {
        assert !Fresh(a, id) ==> !Fresh(a[1..], id) by {
          if !Fresh(a, id) {
            var j :| 0 <= j < |a| && a[j].id == id;
            assert a[1..][j - 1] == a[j];
          }
        }
        IndexOfPrefix(a[1..], b, id);
      }
    }
  }

  /** Removing the record found for `id` from a keyed table: the id is gone,
      ids stay unique, every other record stays, and the order is kept. */
  lemma RemoveFound(rows: seq<Employee>, id: string, i: nat)
    requires UniqueIds(rows) && IndexOf(rows, id) == Some(i)
    ensures Find(RemoveAt(rows, i), id) == None
    ensures UniqueIds(RemoveAt(rows, i))
    ensures forall e :: e in RemoveAt(rows, i) <==> e in rows && e.id != id
  {
    RemoveByIdUnique(rows, id, i);
    RemoveByIdMembers(rows, id);
    var r := RemoveAt(rows, i);
    forall a, b | 0 <= a < b < |r|
      ensures r[a].id != r[b].id
    {
      var a', b' := if a < i then a else a + 1, if b < i then b else b + 1;
      assert r[a] == rows[a'] && r[b] == rows[b'];
    }
  }

  /** Replacing the record at `i` by one with the same id keeps ids unique,
      and a lookup of that id then finds the new record. */
  lemma ReplaceFound(rows: seq<Employee>, e: Employee, i: nat)
    requires UniqueIds(rows) && i < |rows| && rows[i].id == e.id
    ensures UniqueIds(rows[i := e])
    ensures Find(rows[i := e], e.id) == Some(e)
  {
    IndexOfUnique(rows[i := e], i);
  }
}
