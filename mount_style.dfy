/**
 * The style registry behind `mountStyle`: every mounted class name holds its
 * CSS, a usage count and a priority; the single `<style>` tag holds the CSS
 * of every live entry, ordered by priority.
 */
module MountStyle {
  import opened Text

  /** `StyleRegistryEntry`. */
  datatype Entry = Entry(css: string, usages: int, priority: int)

  /**
   * The registry `Map`: its entries, and its keys in insertion order (the order
   * `entries()` yields them in).
   */
  datatype Registry = Registry(keys: seq<string>, entries: map<string, Entry>) {

    /** The keys are the map's keys, each once, and every live entry is in use. */
    predicate WellFormed() {
      && (forall i :: 0 <= i < |keys| ==> keys[i] in entries)
      && (forall k :: k in entries ==> k in keys)
      && Distinct(keys)
      && (forall k :: k in entries ==> entries[k].usages >= 1)
    }
  }

  /** No key occurs twice. */
  predicate Distinct(keys: seq<string>) {
    forall i, j :: 0 <= i < j < |keys| ==> keys[i] != keys[j]
  }

  /** `keys` without k: what `Map.delete` leaves of the insertion order. */
  function Without(keys: seq<string>, k: string): (r: seq<string>)
    ensures forall x :: x in r <==> x in keys && x != k
    ensures k !in keys ==> r == keys
  {
    if keys == [] then []
    else (if keys[0] == k then [] else [keys[0]]) + Without(keys[1..], k)
  }

  /** The entries in insertion order. */
  function Ordered(r: Registry): (es: seq<Entry>)
    requires forall i :: 0 <= i < |r.keys| ==> r.keys[i] in r.entries
    ensures |es| == |r.keys|
    ensures forall i :: 0 <= i < |es| ==> es[i] == r.entries[r.keys[i]]
  {
    seq(|r.keys|, i requires 0 <= i < |r.keys| => r.entries[r.keys[i]])
  }

  // ---------------------------------------------------------------------------
  // the stable sort by priority

  /** Ascending priority. */
  predicate Sorted(es: seq<Entry>) {
    forall i, j :: 0 <= i < j < |es| ==> es[i].priority <= es[j].priority
  }

  /** The entries of priority p, in their order. */
  function ByPriority(es: seq<Entry>, p: int): seq<Entry> {
    if es == [] then []
    else ByPriority(es[..|es| - 1], p) + (if es[|es| - 1].priority == p then [es[|es| - 1]] else [])
  }

  /** x placed after the last entry whose priority is not above its own. */
  function Insert(t: seq<Entry>, x: Entry): (r: seq<Entry>)
    ensures |r| == |t| + 1
  {
    if t == [] then [x]
    else if t[|t| - 1].priority <= x.priority then t + [x]
    else Insert(t[..|t| - 1], x) + [t[|t| - 1]]
  }

  /**
   * `sort((a, b) => a.priority - b.priority)`: an insertion sort, stable as
   * `Array.prototype.sort` is.
   */
  function Sort(es: seq<Entry>): (r: seq<Entry>)
    ensures |r| == |es|
  {
    if es == [] then [] else Insert(Sort(es[..|es| - 1]), es[|es| - 1])
  }

  /** The CSS of each entry. */
  function Csses(es: seq<Entry>): (r: seq<string>)
    ensures |r| == |es| && forall i :: 0 <= i < |es| ==> r[i] == es[i].css
  {
    seq(|es|, i requires 0 <= i < |es| => es[i].css)
  }

  /** The text `updateGlobalStyleContent` writes: the CSS of the live entries by priority, one per line. */
  function StyleText(r: Registry): string
    requires forall i :: 0 <= i < |r.keys| ==> r.keys[i] in r.entries
  {
    Join(Csses(Sort(Ordered(r))), "\n")
  }

  /** The last entry of a run of priority p is added to the run. */
  lemma ByPrioritySnoc(es: seq<Entry>, x: Entry, p: int)
    ensures ByPriority(es + [x], p) == ByPriority(es, p) + (if x.priority == p then [x] else [])
  {
    assert (es + [x])[..|es|] == es;
  }

  /** Insertion adds x and nothing else. */
  lemma {:induction false} InsertCount(t: seq<Entry>, x: Entry)
    ensures multiset(Insert(t, x)) == multiset(t) + multiset{x}
  {
    if t != [] && t[|t| - 1].priority > x.priority {
      var last := t[|t| - 1];
      InsertCount(t[..|t| - 1], x);
      assert t == t[..|t| - 1] + [last];
    }
  }

  /** Insertion into a sorted run keeps it sorted. */
  lemma {:induction false} InsertSorted(t: seq<Entry>, x: Entry)
    requires Sorted(t)
    ensures Sorted(Insert(t, x))
  {
    if t == [] {
    } else if t[|t| - 1].priority <= x.priority {
      forall i | 0 <= i < |t| ensures t[i].priority <= x.priority {
        assert t[i].priority <= t[|t| - 1].priority;
      }
      SortedSnoc(t, x);
    } else {
      var last, init := t[|t| - 1], t[..|t| - 1];
      SortedBelowLast(t);
      forall i | 0 <= i < |init| ensures init[i].priority <= last.priority {
        assert init[i] == t[i];
      }
      InsertSorted(init, x);
      var u := Insert(init, x);
      InsertBounded(init, x, last.priority);
      SortedSnoc(u, last);
    }
  }

  /** A sorted run without its last entry is sorted, and no entry of it is above the last. */
  lemma SortedBelowLast(t: seq<Entry>)
    requires Sorted(t) && t != []
    ensures Sorted(t[..|t| - 1])
    ensures forall i :: 0 <= i < |t| - 1 ==> t[i].priority <= t[|t| - 1].priority
  {
    var init := t[..|t| - 1];
    forall i, j | 0 <= i < j < |init| ensures init[i].priority <= init[j].priority {
      assert init[i] == t[i] && init[j] == t[j];
    }
  }

  /** Inserting into entries of priority at most b an entry of priority at most b leaves every priority at most b. */
  lemma InsertBounded(t: seq<Entry>, x: Entry, b: int)
    requires forall i :: 0 <= i < |t| ==> t[i].priority <= b
    requires x.priority <= b
    ensures forall i :: 0 <= i < |Insert(t, x)| ==> Insert(t, x)[i].priority <= b
  {
    var u := Insert(t, x);
    InsertCount(t, x);
    forall i | 0 <= i < |u| ensures u[i].priority <= b {
      assert u[i] in multiset(u);
      if u[i] != x {
        assert u[i] in multiset(t);
        var j :| 0 <= j < |t| && t[j] == u[i];
      }
    }
  }

  /** Appending an entry no lower than every entry of a sorted run keeps it sorted. */
  lemma SortedSnoc(u: seq<Entry>, y: Entry)
    requires Sorted(u)
    requires forall i :: 0 <= i < |u| ==> u[i].priority <= y.priority
    ensures Sorted(u + [y])
  {
    var r := u + [y];
    forall i, j | 0 <= i < j < |r| ensures r[i].priority <= r[j].priority {
      assert r[i] == u[i];
      if j < |u| {
        assert r[j] == u[j];
      }
    }
  }

  /** Insertion puts x after every entry of its own priority. */
  lemma {:induction false} InsertByPriority(t: seq<Entry>, x: Entry, p: int)
    ensures ByPriority(Insert(t, x), p) == ByPriority(t, p) + (if x.priority == p then [x] else [])
  {
    if t == [] {
      ByPrioritySnoc([], x, p);
      assert [] + [x] == [x];
    } else if t[|t| - 1].priority <= x.priority {
      ByPrioritySnoc(t, x, p);
    } else {
      var last := t[|t| - 1];
      var init := t[..|t| - 1];
      InsertByPriority(init, x, p);
      ByPrioritySnoc(Insert(init, x), last, p);
    }
  }

  /** The sort orders by priority. */
  lemma {:induction false} SortSorted(es: seq<Entry>)
    ensures Sorted(Sort(es))
  {
    if es != [] {
      SortSorted(es[..|es| - 1]);
      InsertSorted(Sort(es[..|es| - 1]), es[|es| - 1]);
    }
  }

  /** The sort neither loses nor adds an entry. */
  lemma {:induction false} SortPermutes(es: seq<Entry>)
    ensures multiset(Sort(es)) == multiset(es)
  {
    if es != [] {
      SortPermutes(es[..|es| - 1]);
      InsertCount(Sort(es[..|es| - 1]), es[|es| - 1]);
      assert es == es[..|es| - 1] + [es[|es| - 1]];
    }
  }

  /** The sort is stable: the entries of each priority keep their insertion order. */
  lemma {:induction false} SortStable(es: seq<Entry>, p: int)
    ensures ByPriority(Sort(es), p) == ByPriority(es, p)
  {
    if es != [] {
      SortStable(es[..|es| - 1], p);
      InsertByPriority(Sort(es[..|es| - 1]), es[|es| - 1], p);
    }
  }

  // ---------------------------------------------------------------------------
  // registry operations on values

  /**
   * The registry after `mountStyle(className, css, priority)`: a known class
   * name gains one usage; a new one is added with one usage, last in order.
   */
  function MountState(r: Registry, className: string, css: string, priority: int): Registry {
    if className in r.entries then
      r.(entries := r.entries[className := r.entries[className].(usages := r.entries[className].usages + 1)])
    else
      Registry(r.keys + [className], r.entries[className := Entry(css, 1, priority)])
  }

  /**
   * The registry after the cleanup of className: an unknown name changes
   * nothing; otherwise one usage is given back and an entry left with none is
   * deleted.
   */
  function CleanupState(r: Registry, className: string): Registry {
    if className !in r.entries then r
    else
      var usages := r.entries[className].usages - 1;
      if usages <= 0 then Registry(Without(r.keys, className), r.entries - {className})
      else r.(entries := r.entries[className := r.entries[className].(usages := usages)])
  }

  /** The cleanup deletes the entry: it held the last usage. */
  predicate CleanupDeletes(r: Registry, className: string) {
    className in r.entries && r.entries[className].usages - 1 <= 0
  }

  /** Keys that were distinct stay distinct once one is removed. */
  lemma {:induction false} WithoutDistinct(keys: seq<string>, k: string)
    requires Distinct(keys)
    ensures Distinct(Without(keys, k))
  {
    if keys != [] {
      var tail := keys[1..];
      forall i, j | 0 <= i < j < |tail| ensures tail[i] != tail[j] {
        assert tail[i] == keys[i + 1] && tail[j] == keys[j + 1];
      }
      WithoutDistinct(tail, k);
      var rest := Without(tail, k);
      assert keys[0] !in rest by {
        forall i | 0 <= i < |tail| ensures tail[i] != keys[0] {
          assert tail[i] == keys[i + 1];
        }
      }
      if keys[0] != k {
        var r := [keys[0]] + rest;
        assert Without(keys, k) == r;
        forall i, j | 0 <= i < j < |r| ensures r[i] != r[j] {
          assert r[j] == rest[j - 1];
          if i > 0 {
            assert r[i] == rest[i - 1];
            assert rest[i - 1] != rest[j - 1];
          } else {
            assert rest[j - 1] in rest;
            assert rest[j - 1] != keys[0];
          }
        }
      } else {
        assert Without(keys, k) == [] + rest;
      }
    }
  }

  /** Mounting keeps the registry well formed. */
  lemma MountWellFormed(r: Registry, className: string, css: string, priority: int)
    requires r.WellFormed()
    ensures MountState(r, className, css, priority).WellFormed()
  {
    if className !in r.entries {
      var keys := r.keys + [className];
      forall i | 0 <= i < |r.keys| ensures r.keys[i] != className {
      }
      forall i, j | 0 <= i < j < |keys| ensures keys[i] != keys[j] {
        if j < |r.keys| {
          assert keys[i] == r.keys[i] && keys[j] == r.keys[j];
        } else {
          assert keys[i] == r.keys[i];
        }
      }
    }
  }

  /** The cleanup keeps the registry well formed: every entry left still has a usage. */
  lemma CleanupWellFormed(r: Registry, className: string)
    requires r.WellFormed()
    ensures CleanupState(r, className).WellFormed()
  {
    var c := CleanupState(r, className);
    if CleanupDeletes(r, className) {
      WithoutDistinct(r.keys, className);
      assert c.keys == Without(r.keys, className) && c.entries == r.entries - {className};
      forall i | 0 <= i < |c.keys| ensures c.keys[i] in c.entries {
        assert c.keys[i] in c.keys;
      }
      forall k | k in c.entries ensures k in c.keys {
        assert k in r.keys;
      }
    } else if className in r.entries {
      assert c.keys == r.keys && c.entries.Keys == r.entries.Keys;
    }
  }

  /** The cleanup a mount returns undoes that mount. */
  lemma CleanupUndoesMount(r: Registry, className: string, css: string, priority: int)
    requires r.WellFormed()
    ensures CleanupState(MountState(r, className, css, priority), className) == r
  {
    if className !in r.entries {
      var keys := r.keys + [className];
      assert className !in r.keys;
      WithoutSnoc(r.keys, className);
      assert r.entries[className := Entry(css, 1, priority)] - {className} == r.entries;
    } else {
      var m := MountState(r, className, css, priority);
      assert m.entries[className := m.entries[className].(usages := m.entries[className].usages - 1)] == r.entries;
    }
  }

  /** Removing a key appended to a list without it gives the list back. */
  lemma {:induction false} WithoutSnoc(keys: seq<string>, k: string)
    requires k !in keys
    ensures Without(keys + [k], k) == keys
  {
    if keys == [] {
      assert [] + [k] == [k];
    } else {
      assert (keys + [k])[0] == keys[0];
      assert (keys + [k])[1..] == keys[1..] + [k];
      WithoutSnoc(keys[1..], k);
    }
  }

  /** The style text holds exactly the live entries, ordered by priority, each priority in insertion order. */
  lemma StyleTextOrder(r: Registry)
    requires forall i :: 0 <= i < |r.keys| ==> r.keys[i] in r.entries
    ensures var es := Sort(Ordered(r));
      && StyleText(r) == Join(Csses(es), "\n")
      && Sorted(es)
      && multiset(es) == multiset(Ordered(r))
      && forall p :: ByPriority(es, p) == ByPriority(Ordered(r), p)
  {
    SortSorted(Ordered(r));
    SortPermutes(Ordered(r));
    forall p ensures ByPriority(Sort(Ordered(r)), p) == ByPriority(Ordered(r), p) {
      SortStable(Ordered(r), p);
    }
  }

  // ---------------------------------------------------------------------------
  // the registry object

  /** The registry, the cached style tag and the document's `<head>`, as the module-level state of the source. */
  class StyleRegistry {
    var keys: seq<string>
    var entries: map<string, Entry>
    /** The `textContent` of the style tag. */
    var content: string
    /** `globalStyleTag` has been set. */
    var tagCached: bool
    /** The document holds a `<style>` tag with the honey-style attribute. */
    var documentHasTag: bool
    /** How many tags this registry has appended to `<head>`. */
    var appended: nat

    function State(): Registry
      reads this
    {
      Registry(keys, entries)
    }

    ghost predicate Valid()
      reads this
    {
      && State().WellFormed()
      && (tagCached ==> documentHasTag)
      && appended <= 1
      && (!documentHasTag ==> appended == 0)
    }

    /** An empty registry over a document that may already hold the style tag with some text. */
    constructor (documentHasTag: bool, content: string)
      ensures Valid()
      ensures State() == Registry([], map[])
      ensures !tagCached && appended == 0
      ensures this.documentHasTag == documentHasTag && this.content == content
    {
      keys := [];
      entries := map[];
      this.content := content;
      tagCached := false;
      this.documentHasTag := documentHasTag;
      appended := 0;
    }

    /** `ensureGlobalStyleTag`: find the tag or create and append one, once, and cache it. */
    method EnsureStyleTag()
      requires Valid()
      modifies this`tagCached, this`documentHasTag, this`appended
      ensures Valid() && tagCached && documentHasTag
      ensures appended == if old(tagCached) || old(documentHasTag) then old(appended) else old(appended) + 1
    {
      if !tagCached {
        if !documentHasTag {
          documentHasTag := true;
          appended := appended + 1;
        }
        tagCached := true;
      }
    }

    /** `updateGlobalStyleContent`: the tag's text becomes the style text of the registry. */
    method UpdateContent()
      requires Valid()
      modifies this`tagCached, this`documentHasTag, this`appended, this`content
      ensures Valid() && tagCached && documentHasTag
      ensures appended == if old(tagCached) || old(documentHasTag) then old(appended) else old(appended) + 1
      ensures content == StyleText(State())
    {
      EnsureStyleTag();
      content := StyleText(State());
    }

    /**
     * `mountStyle`: a known class name gains a usage and nothing is rewritten;
     * a new one is added and the style text rebuilt. The cleanup it returns is
     * `Cleanup(className)`.
     */
    method Mount(className: string, css: string, priority: int)
      requires Valid()
      modifies this
      ensures Valid()
      ensures State() == MountState(old(State()), className, css, priority)
      ensures className in old(entries) ==>
        content == old(content) && tagCached == old(tagCached) && appended == old(appended) && documentHasTag == old(documentHasTag)
      ensures className !in old(entries) ==> content == StyleText(State()) && tagCached && documentHasTag
      ensures className !in old(entries) ==>
        appended == if old(tagCached) || old(documentHasTag) then old(appended) else old(appended) + 1
    {
      MountWellFormed(State(), className, css, priority);
      if className in entries {
        var existing := entries[className];
        entries := entries[className := existing.(usages := existing.usages + 1)];
        return;
      }
      keys := keys + [className];
      entries := entries[className := Entry(css, 1, priority)];
      UpdateContent();
    }

    /** The cleanup function of a mount: give back one usage, and delete and rebuild at none. */
    method Cleanup(className: string)
      requires Valid()
      modifies this
      ensures Valid()
      ensures State() == CleanupState(old(State()), className)
      ensures old(CleanupDeletes(State(), className)) ==> content == StyleText(State()) && tagCached && documentHasTag
      ensures old(CleanupDeletes(State(), className)) ==>
        appended == if old(tagCached) || old(documentHasTag) then old(appended) else old(appended) + 1
      ensures !old(CleanupDeletes(State(), className)) ==>
        content == old(content) && tagCached == old(tagCached) && appended == old(appended) && documentHasTag == old(documentHasTag)
    {
      CleanupWellFormed(State(), className);
      if className !in entries {
        return;
      }
      var entry := entries[className];
      var usages := entry.usages - 1;
      if usages <= 0 {
        keys := Without(keys, className);
        entries := entries - {className};
        assert State() == CleanupState(old(State()), className);
        UpdateContent();
      } else {
        entries := entries[className := entry.(usages := usages)];
        assert State() == CleanupState(old(State()), className);
      }
    }
  }
}
