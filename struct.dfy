/** The host's helper structures: a bounded FIFO queue with `clear`, an
    insert-only dict, the singleton metaclass and the plugin-registering
    metaclass. */
module Struct {
  import opened Base
  import OrderedTable

  /** `ClearableQueue(maxsize)`: `queue.Queue` with its item list and its
      `unfinished_tasks` counter, plus `clear`. A `maxsize` of 0 or less means
      unbounded. */
  class ClearableQueue<T> {
    var items: seq<T>
    var unfinishedTasks: int
    const maxsize: int

    ghost predicate Valid()
      reads this
    {
      unfinishedTasks >= 0 && (maxsize > 0 ==> |items| <= maxsize)
    }

    predicate Full()
      reads this
    {
      0 < maxsize <= |items|
    }

    constructor (maxsize: int)
      ensures Valid() && this.maxsize == maxsize
      ensures items == [] && unfinishedTasks == 0
    {
      this.maxsize := maxsize;
      items := [];
      unfinishedTasks := 0;
    }

    /** `put(x)`: appends at the tail and counts one more unfinished task.
        Python blocks while the queue is full; here the call then returns
        false and changes nothing, standing for the caller still waiting. */
    method Put(x: T) returns (ok: bool)
      requires Valid()
      modifies this
      ensures Valid()
      ensures ok == !old(Full())
      ensures ok ==> items == old(items) + [x] && unfinishedTasks == old(unfinishedTasks) + 1
      ensures !ok ==> items == old(items) && unfinishedTasks == old(unfinishedTasks)
    {
      if Full() {
        return false;
      }
      items := items + [x];
      unfinishedTasks := unfinishedTasks + 1;
      ok := true;
    }

    /** `get_nowait()`: takes the head; `queue.Empty` (None) when empty. */
    method GetNowait() returns (r: Option<T>)
      requires Valid()
      modifies this
      ensures Valid() && unfinishedTasks == old(unfinishedTasks)
      ensures old(items) == [] ==> r.None? && items == []
      ensures old(items) != [] ==> r == Some(old(items)[0]) && items == old(items)[1..]
    {
      if items == [] {
        return None;
      }
      r := Some(items[0]);
      items := items[1..];
    }

    /** `task_done()`: one unfinished task fewer; ValueError, and no change,
        when that would go below zero. */
    method TaskDone() returns (r: Result<()>)
      requires Valid()
      modifies this
      ensures Valid() && items == old(items)
      ensures old(unfinishedTasks) == 0 ==> r == Err(ValueError) && unfinishedTasks == 0
      ensures old(unfinishedTasks) > 0 ==> r == Ok(()) && unfinishedTasks == old(unfinishedTasks) - 1
    {
      if unfinishedTasks - 1 < 0 {
        return Err(ValueError);
      }
      unfinishedTasks := unfinishedTasks - 1;
      r := Ok(());
    }

    /** `clear()`: discards every queued item and lowers `unfinished_tasks`
        by their number; when fewer tasks are unfinished than items are
        queued it raises ValueError and changes nothing. */
    method Clear() returns (r: Result<()>)
      requires Valid()
      modifies this
      ensures Valid()
      ensures old(unfinishedTasks) < |old(items)| ==>
        r == Err(ValueError) && items == old(items) && unfinishedTasks == old(unfinishedTasks)
      ensures old(unfinishedTasks) >= |old(items)| ==>
        r == Ok(()) && items == [] && unfinishedTasks == old(unfinishedTasks) - |old(items)|
    {
      var unfinished := unfinishedTasks - |items|;
      if unfinished < 0 {
        return Err(ValueError);
      }
      unfinishedTasks := unfinished;
      items := [];
      r := Ok(());
    }
  }

  /** A queue into which nobody calls `task_done()` never makes `clear()`
      fail: one put, one get and a clear leave it empty with the put task
      still counted. */
  method ClearWithoutTaskDone() returns (r: Result<()>, left: nat, unfinished: int)
    ensures r == Ok(()) && left == 0 && unfinished == 1
  {
    var q := new ClearableQueue<int>(4);
    var ok := q.Put(7);
    var ok2 := q.Put(8);
    var got := q.GetNowait();
    r := q.Clear();
    left := |q.items|;
    unfinished := q.unfinishedTasks;
  }

  /** With a task marked done while its item is still queued, `clear()`
      raises ValueError and keeps the item. */
  method ClearAfterEarlyTaskDone() returns (r: Result<()>, left: nat)
    ensures r == Err(ValueError) && left == 1
  {
    var q := new ClearableQueue<int>(4);
    var ok := q.Put(7);
    var done := q.TaskDone();
    r := q.Clear();
    left := |q.items|;
  }

  /** `ReadOnlyDict`: a dict whose keys, once set, keep their value. */
  class ReadOnlyDict<K(==), V> {
    var entries: OrderedTable.Table<K, V>

    ghost predicate Valid()
      reads this
    {
      OrderedTable.KeysDistinct(entries)
    }

    constructor ()
      ensures Valid() && entries == []
    {
      entries := [];
    }

    /** `d[k] = v`: stores a new key at the end; KeyError, keeping the old
        value, when the key is already there. */
    method SetItem(k: K, v: V) returns (r: Result<()>)
      requires Valid()
      modifies this
      ensures Valid()
      ensures OrderedTable.Get(old(entries), k).None? ==>
        r == Ok(()) && entries == old(entries) + [(k, v)] && OrderedTable.Get(entries, k) == Some(v)
      ensures OrderedTable.Get(old(entries), k).Some? ==> r == Err(KeyError) && entries == old(entries)
      ensures forall k' :: OrderedTable.Get(old(entries), k').Some? ==> OrderedTable.Get(entries, k') == OrderedTable.Get(old(entries), k')
    {
      if OrderedTable.Get(entries, k).Some? {
        return Err(KeyError);
      }
      OrderedTable.PutKeys(entries, k, v);
      forall k' | OrderedTable.Get(entries, k').Some?
        ensures OrderedTable.Get(OrderedTable.Put(entries, k, v), k') == OrderedTable.Get(entries, k')
      {
        OrderedTable.GetPut(entries, k, v, k');
      }
      OrderedTable.GetPut(entries, k, v, k);
      entries := OrderedTable.Put(entries, k, v);
      r := Ok(());
    }
  }

  /** `MetaSingleton`: the class slot caching the first instance. */
  class Singleton<T> {
    var instance: Option<T>

    constructor ()
      ensures instance.None?
    {
      instance := None;
    }

    /** `Cls(*args)`: the first call keeps the instance it builds (`created`);
        every later call returns that same instance and ignores what it
        would have built. */
    method Call(created: T) returns (r: T)
      modifies this
      ensures old(instance).None? ==> r == created && instance == Some(created)
      ensures old(instance).Some? ==> r == old(instance).value && instance == old(instance)
    {
      if instance.None? {
        instance := Some(created);
      }
      r := instance.value;
    }
  }

  /** Two calls of a singleton class give the same instance, whatever the
      second call would have built. */
  method SingletonCallsAgree(first: int, second: int) returns (a: int, b: int)
    ensures a == b == first
  {
    var slot := new Singleton<int>();
    a := slot.Call(first);
    b := slot.Call(second);
  }

  /** `MetaPluginType`: the root class of a plugin family gets an empty
      `plugins` list; every class defined below it is appended to that one
      list. */
  class PluginFamily<C> {
    var plugins: seq<C>

    /** Definition of the root class. */
    constructor ()
      ensures plugins == []
    {
      plugins := [];
    }

    /** Definition of one more class below the root. */
    method DefineSubclass(c: C)
      modifies this
      ensures plugins == old(plugins) + [c]
    {
      plugins := plugins + [c];
    }

    /** Definitions of several classes, in source order. */
    method DefineSubclasses(cs: seq<C>)
      modifies this
      ensures plugins == old(plugins) + cs
    {
      var i := 0;
      while i < |cs|
        invariant 0 <= i <= |cs|
        invariant plugins == old(plugins) + cs[..i]
      {
        DefineSubclass(cs[i]);
        assert cs[..i + 1] == cs[..i] + [cs[i]];
        i := i + 1;
      }
      assert cs[..i] == cs;
    }
  }

  /** A root class and two plugin classes give a list of exactly those two,
      in definition order. */
  method TwoPluginsRegistered() returns (plugins: seq<string>)
    ensures plugins == ["PluginA", "PluginB"] && |plugins| == 2
  {
    var family := new PluginFamily<string>();
    family.DefineSubclasses(["PluginA", "PluginB"]);
    plugins := family.plugins;
  }
}
