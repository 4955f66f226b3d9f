/**
 * The time-entry log (class TimeEntry, xpoint.rb:65-85): work and pause
 * intervals per project and date, whose end time can be overwritten, each
 * overwrite leaving a record in an append-only edit history.
 */
module TimeEntries {
  import opened Wrappers
  import opened Text

  /** A row of `time_entries`; an `endTime` of None is an entry still open. */
  datatype Entry = Entry(id: int, projectId: int, date: string, startTime: string,
                         endTime: Option<string>, isPause: bool)

  /** A row of `edits_history`: which field of which entry changed, from what to what, and when. */
  datatype EditRecord = EditRecord(id: int, timeEntryId: int, editType: string,
                                   oldValue: Option<string>, newValue: Option<string>, editDate: string)

  /** `update` on an id with no row: Ruby raises NoMethodError on `nil[4]`. */
  datatype LogError = NoSuchEntry

  /** The position of the first entry with that id. */
  function IndexOfId(es: seq<Entry>, id: int): (r: Option<nat>)
    ensures r.None? <==> forall e :: e in es ==> e.id != id
    ensures r.Some? ==> r.value < |es| && es[r.value].id == id
                        && forall j :: 0 <= j < r.value ==> es[j].id != id
  {
    if es == [] then None
    else if es[0].id == id then Some(0)
    else
      match IndexOfId(es[1..], id)
      case None => None
      case Some(k) => Some(k + 1)
  }

  predicate Selected(e: Entry, projectId: int, date: string)
  {
    e.projectId == projectId && e.date == date
  }

  /** The entries of one project on one date, in table order (the WHERE clause). */
  function Select(es: seq<Entry>, projectId: int, date: string): (r: seq<Entry>)
    ensures forall e :: multiset(r)[e] == if Selected(e, projectId, date) then multiset(es)[e] else 0
  {
    if es == [] then []
    else
      var rest := Select(es[..|es| - 1], projectId, date);
      assert es == es[..|es| - 1] + [es[|es| - 1]];
      if Selected(es[|es| - 1], projectId, date) then rest + [es[|es| - 1]] else rest
  }

  /** Ascending by start time in SQLite's text order. */
  predicate SortedByStart(es: seq<Entry>)
  {
    forall i, j :: 0 <= i < j < |es| ==> LexLe(es[i].startTime, es[j].startTime)
  }

  /** An entry that starts no earlier than the last one can go at the end. */
  lemma SortedAppend(es: seq<Entry>, e: Entry)
    requires SortedByStart(es)
    requires es != [] ==> LexLe(es[|es| - 1].startTime, e.startTime)
    ensures SortedByStart(es + [e])
  {
    forall i | 0 <= i < |es| - 1
      ensures LexLe(es[i].startTime, e.startTime)
    {
      LexLeTransitive(es[i].startTime, es[|es| - 1].startTime, e.startTime);
    }
  }

  /** Every entry of `front` starts no later than `last`, so `last` can follow them. */
  lemma SortedBefore(front: seq<Entry>, init: seq<Entry>, e: Entry, last: Entry)
    requires SortedByStart(front)
    requires multiset(front) == multiset(init) + multiset{e}
    requires forall x :: x in init ==> LexLe(x.startTime, last.startTime)
    requires LexLe(e.startTime, last.startTime)
    ensures SortedByStart(front + [last])
  {
    forall x | x in front
      ensures LexLe(x.startTime, last.startTime)
    {
      assert x in multiset(front);
      if x != e {
        assert x in multiset(init);
      }
    }
    if front != [] {
      assert front[|front| - 1] in front;
    }
    SortedAppend(front, last);
  }

  /** Places `e` after every entry that starts no later, keeping equal start times in table order. */
  function InsertByStart(e: Entry, es: seq<Entry>): (r: seq<Entry>)
    requires SortedByStart(es)
    ensures SortedByStart(r)
    ensures multiset(r) == multiset(es) + multiset{e}
  {
    if es == [] then [e]
    else
      var last := es[|es| - 1];
      var init := es[..|es| - 1];
      assert es == init + [last];
      if LexLe(last.startTime, e.startTime) then
        SortedAppend(es, e);
        es + [e]
      else
        LexLeTotal(last.startTime, e.startTime);
        var front := InsertByStart(e, init);
        assert forall i :: 0 <= i < |init| ==> init[i] == es[i];
        SortedBefore(front, init, e, last);
        front + [last]
  }

  /** Insertion sort by start time. */
  function SortByStart(es: seq<Entry>): (r: seq<Entry>)
    ensures SortedByStart(r)
    ensures multiset(r) == multiset(es)
  {
    if es == [] then []
    else
      assert es == es[..|es| - 1] + [es[|es| - 1]];
      InsertByStart(es[|es| - 1], SortByStart(es[..|es| - 1]))
  }

  /** In a sorted list, entries between two of equal start time share that start time. */
  lemma BetweenEqualStarts(b: seq<Entry>, p: int, i: int, q: int)
    requires SortedByStart(b) && 0 <= p <= i <= q < |b|
    requires b[p].startTime == b[q].startTime
    ensures b[i].startTime == b[p].startTime
  {
    if p < i < q {
      LexLeAntisymmetric(b[i].startTime, b[p].startTime);
    }
  }

  /** Leaving one entry out of a sorted list keeps it sorted. */
  lemma SortedWithout(b: seq<Entry>, k: int)
    requires SortedByStart(b) && 0 <= k < |b|
    ensures SortedByStart(b[..k] + b[k + 1..])
  {
  }

  /** The last entries of two sorted arrangements of the same entries start at the same time. */
  lemma SortedLastStarts(a: seq<Entry>, b: seq<Entry>, k: int)
    requires SortedByStart(a) && SortedByStart(b) && multiset(a) == multiset(b)
    requires 0 <= k < |b| == |a| && b[k] == a[|a| - 1]
    ensures a[|a| - 1].startTime == b[|b| - 1].startTime
  {
    var n := |a| - 1;
    assert b[n] in multiset(a);
    var j :| 0 <= j < |a| && a[j] == b[n];
    if k < n && j < n {
      LexLeAntisymmetric(a[n].startTime, b[n].startTime);
    }
  }

  /** Leaving out the entry at `k` removes one copy of it. */
  lemma MultisetWithout(b: seq<Entry>, k: int)
    requires 0 <= k < |b|
    ensures multiset(b[..k] + b[k + 1..]) == multiset(b) - multiset{b[k]}
  {
    assert b == b[..k] + [b[k]] + b[k + 1..];
  }

  /**
   * Start times agreeing with `b` once its entry at `k` is left out agree
   * with `b` itself, when `b[k]` starts with the last entries of both.
   */
  lemma StartsAfterReinsert(a: seq<Entry>, b: seq<Entry>, k: int)
    requires SortedByStart(b) && |a| == |b| && 0 <= k < |b|
    requires b[k].startTime == b[|b| - 1].startTime == a[|a| - 1].startTime
    requires forall i :: 0 <= i < |a| - 1 ==> a[i].startTime == (b[..k] + b[k + 1..])[i].startTime
    ensures forall i :: 0 <= i < |a| ==> a[i].startTime == b[i].startTime
  {
    var n := |a| - 1;
    var b' := b[..k] + b[k + 1..];
    forall i | 0 <= i < n
      ensures a[i].startTime == b[i].startTime
    {
      if i < k {
        assert b'[i] == b[i];
      } else {
        assert b'[i] == b[i + 1];
        BetweenEqualStarts(b, k, i, n);
        BetweenEqualStarts(b, k, i + 1, n);
      }
    }
  }

  /**
   * Two sorted arrangements of the same entries have the same start time at
   * every position: sorting fixes the order except among equal start times.
   */
  lemma {:induction false} SortedStartsUnique(a: seq<Entry>, b: seq<Entry>)
    requires SortedByStart(a) && SortedByStart(b) && multiset(a) == multiset(b)
    ensures |a| == |b|
    ensures forall i :: 0 <= i < |a| ==> a[i].startTime == b[i].startTime
    decreases |a|
  {
    assert |a| == |multiset(a)| == |multiset(b)| == |b|;
    if a != [] {
      var n := |a| - 1;
      assert a[n] in multiset(b);
      var k :| 0 <= k < |b| && b[k] == a[n];
      SortedLastStarts(a, b, k);
      MultisetWithout(b, k);
      MultisetWithout(a, n);
      SortedWithout(b, k);
      SortedWithout(a, n);
      assert a[..n] + a[n + 1..] == a[..n];
      SortedStartsUnique(a[..n], b[..k] + b[k + 1..]);
      StartsAfterReinsert(a, b, k);
    }
  }

  /** The in-memory `time_entries` and `edits_history` tables; ids are assigned 1, 2, ... in order of insertion. */
  class Log {
    var entries: seq<Entry>
    var edits: seq<EditRecord>

    ghost predicate Valid()
      reads this
    {
      && (forall k :: 0 <= k < |entries| ==> entries[k].id == k + 1)
      && (forall k :: 0 <= k < |edits| ==> edits[k].id == k + 1)
    }

    /**
     * The entry appended k-th is the only one with id k + 1, so rewriting the
     * first entry with an id rewrites every row the SQL UPDATE matches.
     */
    lemma EntryOfId(k: int)
      requires Valid() && 0 <= k < |entries|
      ensures IndexOfId(entries, k + 1) == Some(k)
      ensures forall j :: 0 <= j < |entries| && j != k ==> entries[j].id != k + 1
    {
      assert entries[k] in entries;
    }

    constructor ()
      ensures Valid() && entries == [] && edits == []
    {
      entries, edits := [], [];
    }

    /** `TimeEntry.create`: appends an entry; the project id is not checked. */
    method Create(projectId: int, date: string, startTime: string, endTime: Option<string>, isPause: bool)
      requires Valid()
      modifies this
      ensures Valid()
      ensures entries == old(entries) + [Entry(|old(entries)| + 1, projectId, date, startTime, endTime, isPause)]
      ensures edits == old(edits)
    {
      entries := entries + [Entry(|entries| + 1, projectId, date, startTime, endTime, isPause)];
    }

    /** `TimeEntry.record_edit`: appends one record to the history, stamped with `editDate`. */
    method RecordEdit(timeEntryId: int, editType: string, oldValue: Option<string>, newValue: Option<string>,
                      editDate: string)
      requires Valid()
      modifies this
      ensures Valid()
      ensures edits == old(edits) + [EditRecord(|old(edits)| + 1, timeEntryId, editType, oldValue, newValue, editDate)]
      ensures entries == old(entries)
    {
      edits := edits + [EditRecord(|edits| + 1, timeEntryId, editType, oldValue, newValue, editDate)];
    }

    /**
     * `TimeEntry.update`: overwrites the end time of the entry with that id
     * and records the previous and the new end time in the history. For an
     * unknown id nothing changes and the call fails.
     */
    method Update(id: int, endTime: Option<string>, editDate: string) returns (r: Outcome<LogError>)
      requires Valid()
      modifies this
      ensures Valid()
      ensures r == Pass <==> 1 <= id <= |old(entries)|
      ensures IndexOfId(old(entries), id).None? ==>
                r == Fail(NoSuchEntry) && entries == old(entries) && edits == old(edits)
      ensures IndexOfId(old(entries), id).Some? ==>
                var k := IndexOfId(old(entries), id).value;
                && r == Pass
                && entries == old(entries)[k := old(entries)[k].(endTime := endTime)]
                && edits == old(edits) + [EditRecord(|old(edits)| + 1, id, "end_time", old(entries)[k].endTime, endTime, editDate)]
    {
      var found := IndexOfId(entries, id);
      if 1 <= id <= |entries| {
        EntryOfId(id - 1);
      }
      if found.None? {
        return Fail(NoSuchEntry);
      }
      var k := found.value;
      var previous := entries[k].endTime;
      entries := entries[k := entries[k].(endTime := endTime)];
      RecordEdit(id, "end_time", previous, endTime, editDate);
      r := Pass;
    }

    /**
     * `TimeEntry.for_project`: exactly the entries of that project on that
     * date, each as often as it is stored, ordered by start time.
     */
    function ForProject(projectId: int, date: string): (r: seq<Entry>)
      reads this
      ensures SortedByStart(r)
      ensures forall e :: multiset(r)[e] == if Selected(e, projectId, date) then multiset(entries)[e] else 0
      ensures forall e :: e in r <==> e in entries && Selected(e, projectId, date)
    {
      var r := SortByStart(Select(entries, projectId, date));
      assert forall e :: e in r <==> e in multiset(r);
      r
    }

    /**
     * Any ordering of the selected entries by start time agrees with
     * ForProject at every position on the start time: the result is fixed
     * except for the order of entries that start at the same time.
     */
    lemma OrderFixedUpToTies(projectId: int, date: string, r: seq<Entry>)
      requires SortedByStart(r)
      requires multiset(r) == multiset(Select(entries, projectId, date))
      ensures |r| == |ForProject(projectId, date)|
      ensures forall i :: 0 <= i < |r| ==> r[i].startTime == ForProject(projectId, date)[i].startTime
    {
      SortedStartsUnique(r, ForProject(projectId, date));
    }
  }
}
