/**
 * The write-through to-do list: tasks kept as one whole-list value per
 * bucket in a key-value store, a list widget that shows one row per task,
 * and an entry widget whose submitted text becomes a new task.
 */
module Tasks {
  import opened Wrappers
  import Clock

  /** A to-do item: whether it is done, and its text. */
  datatype Task = Task(done: bool, text: string)

  const PendingMark: string := "[ ] "
  const DoneMark: string := "[\U{2713}] "
  const DoneSep: string := " - done "

  /**
   * The row shown for a task: its state mark, then its whole text; only a
   * done task carries more, the done separator and the render-time clock
   * reading.
   */
  function Show(t: Task, now: Clock.Moment): (r: string)
    ensures |r| >= |PendingMark| + |t.text|
    ensures r[..4] == (if t.done then DoneMark else PendingMark)
    ensures r[4..4 + |t.text|] == t.text
    ensures !t.done <==> |r| == |PendingMark| + |t.text|
    ensures t.done ==> |r| >= |DoneMark| + |t.text| + |DoneSep|
    ensures t.done ==> r[4 + |t.text|..4 + |t.text| + |DoneSep|] == DoneSep
    ensures t.done && Clock.Valid(now) ==> Clock.Parse(r[|DoneMark| + |t.text| + |DoneSep|..]) == Some(now)
  {
    if t.done then
      var r := DoneMark + t.text + DoneSep + Clock.Format(now);
      assert Clock.Valid(now) ==> Clock.Parse(r[|DoneMark| + |t.text| + |DoneSep|..]) == Some(now) by {
        if Clock.Valid(now) {
          Clock.ParseFormat(now);
          assert r[|DoneMark| + |t.text| + |DoneSep|..] == Clock.Format(now);
        }
      }
      r
    else PendingMark + t.text
  }

  /** Reads a displayed row back into the task it shows. */
  function ParseRow(r: string): Option<Task> {
    if |r| >= 4 && r[..4] == PendingMark then Some(Task(false, r[4..]))
    else if |r| >= 28 && r[..4] == DoneMark && r[|r| - 24..|r| - 16] == DoneSep
            && Clock.Parse(r[|r| - 16..]).Some?
    then Some(Task(true, r[4..|r| - 24]))
    else None
  }

  /** A row shows the task's state and its whole text, unambiguously. */
  lemma ShowParses(t: Task, now: Clock.Moment)
    requires Clock.Valid(now) && now.year < 10000
    ensures ParseRow(Show(t, now)) == Some(t)
  {
    Clock.FormatLength(now);
    Clock.ParseFormat(now);
    var r := Show(t, now);
    if t.done {
      assert r[..4] == DoneMark;
      assert r[..4] != PendingMark by { assert r[1] != PendingMark[1]; }
      assert r[|r| - 24..|r| - 16] == DoneSep;
      assert r[|r| - 16..] == Clock.Format(now);
      assert r[4..|r| - 24] == t.text;
    } else {
      assert r[..4] == PendingMark;
      assert r[4..] == t.text;
    }
  }

  /** The rows draw puts in the list: one per task, in order. */
  function Rows(ts: seq<Task>, now: Clock.Moment): (r: seq<string>)
    ensures |r| == |ts|
    ensures forall i :: 0 <= i < |ts| ==> r[i] == Show(ts[i], now)
  {
    if ts == [] then [] else Rows(ts[..|ts| - 1], now) + [Show(ts[|ts| - 1], now)]
  }

  /** The displayed rows determine the task list they were drawn from. */
  lemma RowsDetermineTasks(ts1: seq<Task>, ts2: seq<Task>, now: Clock.Moment)
    requires Clock.Valid(now) && now.year < 10000
    requires Rows(ts1, now) == Rows(ts2, now)
    ensures ts1 == ts2
  {
    forall i | 0 <= i < |ts1|
      ensures ts1[i] == ts2[i]
    {
      ShowParses(ts1[i], now);
      ShowParses(ts2[i], now);
    }
  }

  /** The list after flipping the done flag of the task at position s. */
  function Toggled(ts: seq<Task>, s: nat): (r: seq<Task>)
    requires s < |ts|
    ensures |r| == |ts|
    ensures r[s].done == !ts[s].done && r[s].text == ts[s].text
    ensures forall i :: 0 <= i < |ts| && i != s ==> r[i] == ts[i]
  {
    ts[s := ts[s].(done := !ts[s].done)]
  }

  /** Flipping the same position twice restores the list. */
  lemma ToggleTwice(ts: seq<Task>, s: nat)
    requires s < |ts|
    ensures Toggled(Toggled(ts, s), s) == ts
  {
  }

  // ---------------------------------------------------------------------
  // The store: bucket name -> the value under key "tasks", if any.
  // A bucket missing from the map does not exist; None is an existing
  // bucket whose "tasks" key was never written.

  type Buckets = map<string, Option<seq<Task>>>

  /**
   * Bolt's CreateBucket inside an update that rolls back on failure: an
   * existing bucket and a blank name are both refused, and then the store
   * is left as it was.
   */
  function CreateBucket(m: Buckets, name: string): (r: Buckets)
    ensures name == "" ==> r == m
    ensures name != "" ==> r.Keys == m.Keys + {name}
    ensures forall k :: k in m ==> r[k] == m[k]
    ensures name != "" && name !in m ==> r[name] == None
  {
    if name == "" || name in m then m else m[name := None]
  }

  /** Overwrites the whole value under "tasks" in an existing bucket. */
  function Put(m: Buckets, name: string, ts: seq<Task>): (r: Buckets)
    requires name in m
    ensures r.Keys == m.Keys
    ensures r[name] == Some(ts)
    ensures forall k :: k in m && k != name ==> r[k] == m[k]
  {
    m[name := Some(ts)]
  }

  /** Creating a bucket twice leaves the store as creating it once. */
  lemma CreateBucketIdempotent(m: Buckets, name: string)
    ensures CreateBucket(CreateBucket(m, name), name) == CreateBucket(m, name)
  {
  }

  /** A later save replaces an earlier one entirely. */
  lemma PutOverwrites(m: Buckets, name: string, ts1: seq<Task>, ts2: seq<Task>)
    requires name in m
    ensures Put(Put(m, name, ts1), name, ts2) == Put(m, name, ts2)
  {
  }

  /** The key-value store holding one bucket per task list. */
  class Db {
    var buckets: Buckets

    constructor ()
      ensures buckets == map[]
    {
      buckets := map[];
    }

    /** initBucket: creates the bucket, and leaves an existing one alone. */
    method InitBucket(name: string)
      modifies this
      ensures buckets == CreateBucket(old(buckets), name)
    {
      if name != "" && name !in buckets {
        buckets := buckets[name := None];
      }
    }

    /** getTasks: the decoded value under "tasks"; None when it was never written. */
    function GetTasks(name: string): (r: Option<seq<Task>>)
      reads this
      requires name in buckets
      ensures r.None? <==> buckets[name] == None
      ensures r.Some? ==> Put(buckets, name, r.value) == buckets
    {
      buckets[name]
    }

    /** saveTasks: overwrites the whole value under "tasks". */
    method SaveTasks(name: string, ts: seq<Task>)
      requires name in buckets
      modifies this
      ensures buckets == Put(old(buckets), name, ts)
      ensures GetTasks(name) == Some(ts)
    {
      buckets := buckets[name := Some(ts)];
    }
  }

  /** A list widget: its rows and the selected position (-1 for none). */
  class ListWidget {
    var items: seq<string>
    var selected: int

    constructor ()
      ensures items == [] && selected == -1
    {
      items, selected := [], -1;
    }

    method RemoveItems()
      modifies this
      ensures items == [] && selected == -1
    {
      items, selected := [], -1;
    }

    method AddItems(item: string)
      modifies this
      ensures items == old(items) + [item] && selected == old(selected)
    {
      items := items + [item];
    }

    method Select(i: int)
      modifies this
      ensures items == old(items) && selected == i
    {
      selected := i;
    }
  }

  /** A one-line text entry widget. */
  class Entry {
    var text: string

    constructor (text: string)
      ensures this.text == text
    {
      this.text := text;
    }

    method SetText(s: string)
      modifies this
      ensures text == s
    {
      text := s;
    }
  }

  /** draw: replaces the list's rows with one row per task, in order. */
  method Draw(tl: seq<Task>, l: ListWidget, now: Clock.Moment)
    modifies l
    ensures l.items == Rows(tl, now) && l.selected == -1
  {
    l.RemoveItems();
    for i := 0 to |tl|
      invariant l.items == Rows(tl[..i], now) && l.selected == -1
    {
      assert tl[..i + 1][..i] == tl[..i];
      l.AddItems(Show(tl[i], now));
    }
    assert tl[..|tl|] == tl;
  }

  /**
   * onItemActivated: with a row selected, flips that task, redraws,
   * restores the selection and saves the list; with none selected, does
   * nothing.
   */
  method OnItemActivated(db: Db, name: string, l: ListWidget, now: Clock.Moment)
    requires name in db.buckets
    requires l.selected >= 0 ==> db.buckets[name].Some? && l.selected < |db.buckets[name].value|
    modifies db, l
    ensures old(l.selected) < 0 ==> db.buckets == old(db.buckets) && l.items == old(l.items) && l.selected == old(l.selected)
    ensures old(l.selected) >= 0 ==>
      var ts := Toggled(old(db.buckets[name].value), old(l.selected));
      db.buckets == Put(old(db.buckets), name, ts) && l.items == Rows(ts, now) && l.selected == old(l.selected)
  {
    var s := l.selected;
    if s >= 0 {
      var ts := db.GetTasks(name).value;
      ts := ts[s := ts[s].(done := !ts[s].done)];
      Draw(ts, l, now);
      l.Select(s);
      db.SaveTasks(name, ts);
    }
  }

  /**
   * onSubmit: non-empty entry text is appended as a pending task, the list
   * is redrawn, the entry cleared and the list saved; empty text does
   * nothing.
   */
  method OnSubmit(db: Db, name: string, l: ListWidget, e: Entry, now: Clock.Moment)
    requires name in db.buckets
    requires e.text != "" ==> db.buckets[name].Some?
    modifies db, l, e
    ensures old(e.text) == "" ==>
      db.buckets == old(db.buckets) && l.items == old(l.items) && l.selected == old(l.selected) && e.text == ""
    ensures old(e.text) != "" ==>
      var ts := old(db.buckets[name].value) + [Task(false, old(e.text))];
      db.buckets == Put(old(db.buckets), name, ts) && l.items == Rows(ts, now) && l.selected == -1 && e.text == ""
  {
    if e.text != "" {
      var t := Task(false, e.text);
      var ts := db.GetTasks(name).value;
      ts := ts + [t];
      Draw(ts, l, now);
      e.SetText("");
      db.SaveTasks(name, ts);
    }
  }

  /**
   * initTaskList: adds a row per stored task; when nothing is stored yet,
   * stores an empty list and adds no rows.
   */
  method InitTaskList(db: Db, name: string, l: ListWidget, now: Clock.Moment)
    requires name in db.buckets
    modifies db, l
    ensures l.selected == old(l.selected)
    ensures old(db.buckets[name]).Some? ==>
      db.buckets == old(db.buckets) && l.items == old(l.items) + Rows(old(db.buckets[name].value), now)
    ensures old(db.buckets[name]).None? ==>
      db.buckets == Put(old(db.buckets), name, []) && l.items == old(l.items)
  {
    var ts := db.GetTasks(name);
    if ts.Some? {
      var tl := ts.value;
      for i := 0 to |tl|
        invariant db.buckets == old(db.buckets)
        invariant l.items == old(l.items) + Rows(tl[..i], now) && l.selected == old(l.selected)
      {
        assert tl[..i + 1][..i] == tl[..i];
        l.AddItems(Show(tl[i], now));
      }
      assert tl[..|tl|] == tl;
    } else {
      db.SaveTasks(name, []);
    }
  }

  /**
   * The task-list half of NewTaskBox: makes sure the bucket exists and
   * fills a new list from it.
   */
  method OpenTaskList(db: Db, name: string, now: Clock.Moment) returns (l: ListWidget)
    requires name != ""
    modifies db
    ensures fresh(l) && l.selected == -1
    ensures old(name in db.buckets && db.buckets[name].Some?) ==>
      db.buckets == old(db.buckets) && l.items == Rows(old(db.buckets[name].value), now)
    ensures !old(name in db.buckets && db.buckets[name].Some?) ==>
      db.buckets == Put(CreateBucket(old(db.buckets), name), name, []) && l.items == []
  {
    db.InitBucket(name);
    l := new ListWidget();
    InitTaskList(db, name, l, now);
  }

  /** Activating the same row twice leaves the stored list as it was. */
  method ActivateTwice(db: Db, name: string, l: ListWidget, now: Clock.Moment)
    requires name in db.buckets
    requires l.selected >= 0 && db.buckets[name].Some? && l.selected < |db.buckets[name].value|
    modifies db, l
    ensures db.buckets == old(db.buckets) && l.selected == old(l.selected)
  {
    ghost var m, ts, s := db.buckets, db.buckets[name].value, l.selected;
    OnItemActivated(db, name, l, now);
    assert db.buckets == Put(m, name, Toggled(ts, s)) && l.selected == s;
    OnItemActivated(db, name, l, now);
    ToggleTwice(ts, s);
    PutOverwrites(m, name, Toggled(ts, s), ts);
  }

  /**
   * A fresh list: submit one task, activate its row, reload it from the
   * store; the single row shows it done at the render time.
   */
  method SubmitThenToggle(name: string, text: string, now: Clock.Moment) returns (rows: seq<string>)
    requires name != "" && text != ""
    ensures rows == [DoneMark + text + DoneSep + Clock.Format(now)]
  {
    var db := new Db();
    var l := OpenTaskList(db, name, now);
    var e := new Entry(text);
    OnSubmit(db, name, l, e, now);
    l.Select(0);
    OnItemActivated(db, name, l, now);
    var reloaded := new ListWidget();
    InitTaskList(db, name, reloaded, now);
    rows := reloaded.items;
  }
}
