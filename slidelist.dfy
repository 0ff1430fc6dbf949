/**
 * Operations on the presentation's slide-id list: `delete_slide`,
 * `move_slide`, and deleting several positions in descending order.
 */
module SlideList {
  import opened Package
  import Scanner

  /** `del lst[i]`. */
  function DeleteAt<T>(s: seq<T>, i: nat): seq<T>
    requires i < |s|
  {
    s[..i] + s[i + 1..]
  }

  /** `lst.insert(i, x)` for i >= 0: before position i, at the end when i >= |lst|. */
  function InsertAt<T>(s: seq<T>, i: nat, x: T): seq<T>
  {
    if i >= |s| then s + [x] else s[..i] + [x] + s[i..]
  }

  /** `move_slide`: take out the entry at `from`, insert it at `to` of what remains. */
  function Move<T>(s: seq<T>, from: nat, to: nat): seq<T>
    requires from < |s|
  {
    InsertAt(DeleteAt(s, from), to, s[from])
  }

  /** Deleting entry i leaves one entry fewer, the others in their order. */
  lemma DeleteAtShifts<T>(s: seq<T>, i: nat)
    requires i < |s|
    ensures |DeleteAt(s, i)| == |s| - 1
    ensures forall k :: 0 <= k < i ==> DeleteAt(s, i)[k] == s[k]
    ensures forall k :: i <= k < |s| - 1 ==> DeleteAt(s, i)[k] == s[k + 1]
  {
  }

  /** Putting a deleted entry back where it was restores the list. */
  lemma DeleteInsertRoundTrip<T>(s: seq<T>, i: nat)
    requires i < |s|
    ensures InsertAt(DeleteAt(s, i), i, s[i]) == s
  {
    if i < |s| - 1 {
      assert DeleteAt(s, i)[..i] == s[..i];
      assert DeleteAt(s, i)[i..] == s[i + 1..];
    }
    assert s == s[..i] + [s[i]] + s[i + 1..];
  }

  /**
   * A move is a permutation: same length, same entries with multiplicity, and
   * the moved entry ends at `to` (at the end when `to` is past it).
   */
  lemma MovePermutes<T>(s: seq<T>, from: nat, to: nat)
    requires from < |s|
    ensures |Move(s, from, to)| == |s|
    ensures multiset(Move(s, from, to)) == multiset(s)
    ensures Move(s, from, to)[if to < |s| then to else |s| - 1] == s[from]
  {
    var d := DeleteAt(s, from);
    assert s == s[..from] + [s[from]] + s[from + 1..];
    assert multiset(s) == multiset(d) + multiset{s[from]};
    if to < |d| {
      assert d == d[..to] + d[to..];
    }
  }

  /** Moving an entry to `to` and back to `from` restores the list. */
  lemma MoveRoundTrip<T>(s: seq<T>, from: nat, to: nat)
    requires from < |s| && to < |s|
    ensures Move(Move(s, from, to), to, from) == s
  {
    var m := Move(s, from, to);
    var d := DeleteAt(s, from);
    MovePermutes(s, from, to);
    assert m[to] == s[from];
    if to < |d| {
      assert DeleteAt(m, to) == d;
    } else {
      assert m == d + [s[from]];
      assert DeleteAt(m, to) == d;
    }
    DeleteInsertRoundTrip(s, from);
  }

  /** `delete_slide`: removes exactly entry `index`; an index out of range raises and changes nothing. */
  method DeleteSlide(prs: Presentation, index: nat) returns (ok: bool)
    modifies prs
    ensures ok == (index < |old(prs.slides)|)
    ensures prs.slides == if ok then DeleteAt(old(prs.slides), index) else old(prs.slides)
  {
    if index >= |prs.slides| {
      return false;
    }
    prs.slides := prs.slides[..index] + prs.slides[index + 1..];
    ok := true;
  }

  /** `move_slide`: delete at `oldIndex`, insert at `newIndex`; an old index out of range raises and changes nothing. */
  method MoveSlide(prs: Presentation, oldIndex: nat, newIndex: nat) returns (ok: bool)
    modifies prs
    ensures ok == (oldIndex < |old(prs.slides)|)
    ensures prs.slides == if ok then Move(old(prs.slides), oldIndex, newIndex) else old(prs.slides)
  {
    if oldIndex >= |prs.slides| {
      return false;
    }
    var slide := prs.slides[oldIndex];
    prs.slides := DeleteAt(prs.slides, oldIndex);
    prs.slides := InsertAt(prs.slides, newIndex, slide);
    ok := true;
  }

  // ---------------------------------------------------------------------------
  // Deleting several positions
  // ---------------------------------------------------------------------------

  /** Deleting positions one after the other (an out-of-range position changes nothing). */
  function DeleteAll<T>(s: seq<T>, ds: seq<nat>): seq<T>
    decreases |ds|
  {
    if |ds| == 0 then s
    else if ds[0] < |s| then DeleteAll(DeleteAt(s, ds[0]), ds[1..])
    else DeleteAll(s, ds[1..])
  }

  /** The entries of s whose positions are not listed in ks, in their order. */
  function Drop<T>(s: seq<T>, ks: seq<nat>): seq<T>
    decreases |s|
  {
    if |s| == 0 then []
    else Drop(s[..|s| - 1], ks) + (if |s| - 1 in ks then [] else [s[|s| - 1]])
  }

  function Reverse<T>(s: seq<T>): seq<T>
    decreases |s|
  {
    if |s| == 0 then [] else [s[|s| - 1]] + Reverse(s[..|s| - 1])
  }

  /** Reversing a strictly ascending list sorts it in strictly descending order. */
  lemma {:induction false} ReverseDescending(xs: seq<nat>)
    requires Scanner.StrictlyAscending(xs)
    ensures |Reverse(xs)| == |xs|
    ensures forall k :: 0 <= k < |xs| ==> Reverse(xs)[k] == xs[|xs| - 1 - k]
    ensures forall a, b :: 0 <= a < b < |xs| ==> Reverse(xs)[a] > Reverse(xs)[b]
    decreases |xs|
  {
    if |xs| > 0 {
      ReverseDescending(xs[..|xs| - 1]);
    }
  }

  lemma {:induction false} DropSameBelow<T>(s: seq<T>, ks: seq<nat>, js: seq<nat>)
    requires forall x :: 0 <= x < |s| ==> (x in ks <==> x in js)
    ensures Drop(s, ks) == Drop(s, js)
    decreases |s|
  {
    if |s| > 0 {
      DropSameBelow(s[..|s| - 1], ks, js);
    }
  }

  lemma {:induction false} DropAppend<T>(a: seq<T>, b: seq<T>, ks: seq<nat>)
    requires forall x :: x in ks ==> x < |a|
    ensures Drop(a + b, ks) == Drop(a, ks) + b
    decreases |b|
  {
    if |b| > 0 {
      var n := |a + b|;
      assert (a + b)[..n - 1] == a + b[..|b| - 1];
      DropAppend(a, b[..|b| - 1], ks);
      assert n - 1 !in ks;
      assert b == b[..|b| - 1] + [b[|b| - 1]];
    } else {
      assert a + b == a;
    }
  }

  lemma {:induction false} DropNothing<T>(s: seq<T>)
    ensures Drop(s, []) == s
    decreases |s|
  {
    if |s| > 0 {
      DropNothing(s[..|s| - 1]);
    }
  }

  /**
   * The last of strictly ascending positions is above all the others, and
   * below it the list and the list without its last entry hold the same positions.
   */
  lemma AscendingLast(ks: seq<nat>, ks': seq<nat>)
    requires Scanner.StrictlyAscending(ks) && |ks| > 0 && ks' == ks[..|ks| - 1]
    ensures Scanner.StrictlyAscending(ks')
    ensures forall x :: x in ks ==> x <= ks[|ks| - 1]
    ensures forall x :: x in ks' ==> x < ks[|ks| - 1]
    ensures forall x :: 0 <= x < ks[|ks| - 1] ==> (x in ks <==> x in ks')
  {
    var m := ks[|ks| - 1];
    assert ks == ks' + [m];
    forall x | x in ks' ensures x < m {
      var a :| 0 <= a < |ks'| && ks'[a] == x;
      assert ks[a] == x;
    }
  }

  /**
   * Deleting strictly ascending in-range positions in descending order removes
   * exactly the entries at those original positions and no others, whatever
   * the list's length.
   */
  lemma {:induction false} DeleteDescending<T>(s: seq<T>, ks: seq<nat>)
    requires Scanner.StrictlyAscending(ks)
    requires forall x :: x in ks ==> x < |s|
    ensures DeleteAll(s, Reverse(ks)) == Drop(s, ks)
    decreases |ks|
  {
    if |ks| == 0 {
      DropNothing(s);
    } else {
      var m := ks[|ks| - 1];
      var ks' := ks[..|ks| - 1];
      assert m in ks;
      AscendingLast(ks, ks');
      var s' := DeleteAt(s, m);
      assert DeleteAll(s, Reverse(ks)) == DeleteAll(s', Reverse(ks'));
      DeleteDescending(s', ks');
      // Drop(s', ks') == Drop(s[..m], ks') + s[m+1..]
      DropAppend(s[..m], s[m + 1..], ks');
      // Drop(s, ks) == Drop(s[..m+1], ks) + s[m+1..] == Drop(s[..m], ks) + s[m+1..]
      assert s == s[..m + 1] + s[m + 1..];
      DropAppend(s[..m + 1], s[m + 1..], ks);
      assert s[..m + 1][..m] == s[..m];
      assert Drop(s[..m + 1], ks) == Drop(s[..m], ks);
      DropSameBelow(s[..m], ks, ks');
    }
  }

  /** Drop keeps |s| - |ks| entries when ks lists distinct in-range positions in ascending order. */
  lemma {:induction false} DropLength<T>(s: seq<T>, ks: seq<nat>)
    requires Scanner.StrictlyAscending(ks)
    requires forall x :: x in ks ==> x < |s|
    ensures |Drop(s, ks)| == |s| - |ks|
    decreases |s|
  {
    assert |ks| > 0 ==> ks[0] in ks;
    if |s| > 0 {
      var n := |s| - 1;
      if n in ks {
        var ks' := ks[..|ks| - 1];
        AscendingLast(ks, ks');
        assert ks[|ks| - 1] in ks;
        assert ks[|ks| - 1] == n;
        assert ks == ks' + [n];
        DropSameBelow(s[..n], ks, ks');
        DropLength(s[..n], ks');
        assert Drop(s, ks) == Drop(s[..n], ks);
      } else {
        forall x | x in ks ensures x < n {
          assert x != n;
        }
        DropLength(s[..n], ks);
        assert Drop(s, ks) == Drop(s[..n], ks) + [s[n]];
      }
    }
  }
}
