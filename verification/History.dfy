/** Settings over a run: each step sets a value or leaves it, and the latest one holds. */
module History {
  import opened Bytes

  // The value set last, or the one there from the start.
  ghost predicate Latest<T(!new)>(sets: seq<Option<T>>, start: T, v: T) {
    || (exists j :: 0 <= j < |sets| && SetLastAt(sets, j, v))
    || ((forall k :: 0 <= k < |sets| ==> sets[k] == None) && v == start)
  }

  ghost predicate SetLastAt<T(!new)>(sets: seq<Option<T>>, j: nat, v: T) {
    j < |sets| && sets[j] == Some(v) && forall k :: j < k < |sets| ==> sets[k] == None
  }

  lemma LatestStep<T(!new)>(sets: seq<Option<T>>, start: T, v: T, set_: Option<T>)
    requires Latest(sets, start, v)
    ensures Latest(sets + [set_], start, if set_.Some? then set_.value else v)
  {
    var all := sets + [set_];
    if set_.Some? {
      assert SetLastAt(all, |sets|, set_.value);
    } else if exists j :: 0 <= j < |sets| && SetLastAt(sets, j, v) {
      var j :| 0 <= j < |sets| && SetLastAt(sets, j, v);
      assert SetLastAt(all, j, v);
    }
  }

  lemma LatestUnique<T(!new)>(sets: seq<Option<T>>, start: T, v: T, w: T)
    requires Latest(sets, start, v) && Latest(sets, start, w)
    ensures v == w
  {
    if exists j :: 0 <= j < |sets| && SetLastAt(sets, j, v) {
      var j :| 0 <= j < |sets| && SetLastAt(sets, j, v);
      assert sets[j].Some?;
      var k :| 0 <= k < |sets| && SetLastAt(sets, k, w);
      assert j == k;
    }
  }

  lemma LatestEmpty<T(!new)>(v: T)
    ensures Latest<T>([], v, v)
  {
  }
}
