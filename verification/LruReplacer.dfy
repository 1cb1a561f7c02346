/** The LRU replacer: a linked list of frames and, for every frame, an iterator to its list node. */
module LruReplacer {
  import opened Common
  import opened BufferPool

  /** A list node; `id` is what an iterator to it holds on to while other nodes come and go. */
  datatype Node = Node(id: nat, frame: nat)

  function Frames(list: seq<Node>): (s: seq<nat>)
    ensures |s| == |list|
    ensures forall i :: 0 <= i < |s| ==> s[i] == list[i].frame
  {
    seq(|list|, i requires 0 <= i < |list| => list[i].frame)
  }

  function Erase(list: seq<Node>, id: nat): seq<Node> {
    if list == [] then [] else if list[0].id == id then list[1..] else [list[0]] + Erase(list[1..], id)
  }

  predicate Tracks(page2iter: seq<Option<nat>>, n: Node) {
    n.frame < |page2iter| && page2iter[n.frame] == Some(n.id)
  }

  /** List and index are in step: each node is the one its frame's iterator points at, and frames
      without a node have no iterator. */
  ghost predicate InStep(list: seq<Node>, page2iter: seq<Option<nat>>, nextId: nat) {
    && (forall i :: 0 <= i < |list| ==> Tracks(page2iter, list[i]) && list[i].id < nextId)
    && (forall i, j :: 0 <= i < j < |list| ==> list[i].frame != list[j].frame && list[i].id != list[j].id)
    && (forall f :: 0 <= f < |page2iter| && page2iter[f].Some? ==> f in Frames(list))
  }

  /** Erasing through the iterator of a frame takes that frame out and nothing else. */
  lemma {:induction false} EraseIsWithout(list: seq<Node>, f: nat, id: nat)
    requires forall i :: 0 <= i < |list| ==> (list[i].frame == f <==> list[i].id == id)
    ensures Frames(Erase(list, id)) == Without(Frames(list), f)
    ensures forall n :: n in Erase(list, id) ==> n in list
  {
    if list != [] {
      assert Frames(list)[1..] == Frames(list[1..]);
      if list[0].id != id {
        EraseIsWithout(list[1..], f, id);
        assert Frames([list[0]] + Erase(list[1..], id)) == [list[0].frame] + Frames(Erase(list[1..], id));
      }
    }
  }

  lemma {:induction false} EraseKeepsDistinct(list: seq<Node>, id: nat)
    requires forall i, j :: 0 <= i < j < |list| ==> list[i].frame != list[j].frame && list[i].id != list[j].id
    ensures var r := Erase(list, id);
            && (forall i, j :: 0 <= i < j < |r| ==> r[i].frame != r[j].frame && r[i].id != r[j].id)
            && (forall n :: n in r <==> n in list && n.id != id)
  {
    if list != [] {
      assert forall n :: n in list <==> n == list[0] || n in list[1..];
      if list[0].id != id {
        EraseKeepsDistinct(list[1..], id);
        var r := Erase(list[1..], id);
        forall j | 0 <= j < |r| ensures r[j].frame != list[0].frame && r[j].id != list[0].id { assert r[j] in r; }
      } else {
        forall n | n in list[1..] ensures n.id != id {}
      }
    }
  }

  class LRUReplacer {
    var waitList: seq<Node>
    var page2iter: seq<Option<nat>>
    var nextId: nat

    ghost predicate Valid()
      reads this
    {
      InStep(waitList, page2iter, nextId)
    }

    /** The frames waiting to be evicted, most recently unpinned first. */
    ghost function Order(): seq<nat>
      reads this
    {
      Frames(waitList)
    }

    constructor (numPages: nat)
      ensures Valid() && Order() == [] && |page2iter| == numPages
    {
      waitList, nextId := [], 0;
      page2iter := seq(numPages, _ => None);
    }

    predicate IsInReplacer(f: nat)
      requires f < |page2iter|
      reads this
    {
      page2iter[f].Some?
    }

    lemma IsInReplacerIff(f: nat)
      requires Valid() && f < |page2iter|
      ensures IsInReplacer(f) <==> f in Order()
    {
      if f in Order() {
        var i :| 0 <= i < |Order()| && Order()[i] == f;
        assert Tracks(page2iter, waitList[i]);
      }
    }

    method Victim() returns (frame: Option<nat>)
      requires Valid()
      modifies this
      ensures Valid() && |page2iter| == old(|page2iter|)
      ensures frame == if old(Order()) == [] then None else Some(old(Order())[|old(Order())| - 1])
      ensures Order() == if old(Order()) == [] then [] else old(Order())[..|old(Order())| - 1]
    {
      if waitList == [] { return None; }
      var last := waitList[|waitList| - 1];
      assert Tracks(page2iter, last);
      waitList := waitList[..|waitList| - 1];
      page2iter := page2iter[last.frame := None];
      frame := Some(last.frame);
      assert old(waitList) == waitList + [last];
      forall f | 0 <= f < |page2iter| && page2iter[f].Some? ensures f in Frames(waitList) {
        assert f in Frames(old(waitList));
        var i :| 0 <= i < |old(waitList)| && Frames(old(waitList))[i] == f;
        assert i < |waitList| && Frames(waitList)[i] == f;
      }
    }

    method Pin(f: nat)
      requires Valid() && f < |page2iter|
      modifies this
      ensures Valid() && |page2iter| == old(|page2iter|)
      ensures Order() == Without(old(Order()), f)
    {
      IsInReplacerIff(f);
      if !IsInReplacer(f) {
        WithoutAbsent(Order(), f);
        return;
      }
      ghost var list, id := waitList, page2iter[f].value;
      forall i | 0 <= i < |list| ensures list[i].frame == f <==> list[i].id == id {
        assert Tracks(page2iter, list[i]);
        var k :| 0 <= k < |list| && Frames(list)[k] == f;
        assert Tracks(page2iter, list[k]);
      }
      EraseIsWithout(list, f, id);
      EraseKeepsDistinct(list, id);
      waitList := Erase(waitList, page2iter[f].value);
      page2iter := page2iter[f := None];
      PinKeepsStep(list, old(page2iter), nextId, f);
    }

    static lemma PinKeepsStep(list: seq<Node>, page2iter: seq<Option<nat>>, nextId: nat, f: nat)
      requires InStep(list, page2iter, nextId) && f < |page2iter| && page2iter[f].Some?
      ensures InStep(Erase(list, page2iter[f].value), page2iter[f := None], nextId)
    {
      var id := page2iter[f].value;
      var r, index := Erase(list, id), page2iter[f := None];
      EraseKeepsDistinct(list, id);
      forall n | n in list ensures Tracks(page2iter, n) && n.id < nextId && (n.frame == f <==> n.id == id) {
        assert f in Frames(list);
        var k :| 0 <= k < |list| && Frames(list)[k] == f;
        assert Tracks(page2iter, list[k]);
      }
      forall i | 0 <= i < |r| ensures Tracks(index, r[i]) && r[i].id < nextId { assert r[i] in r; }
      forall g | 0 <= g < |index| && index[g].Some? ensures g in Frames(r) {
        assert g in Frames(list);
        var k :| 0 <= k < |list| && Frames(list)[k] == g;
        assert list[k] in r;
        var m :| 0 <= m < |r| && r[m] == list[k];
        assert Frames(r)[m] == g;
      }
    }

    method Unpin(f: nat)
      requires Valid() && f < |page2iter|
      modifies this
      ensures Valid() && |page2iter| == old(|page2iter|)
      ensures Order() == if f in old(Order()) then old(Order()) else [f] + old(Order())
    {
      IsInReplacerIff(f);
      if IsInReplacer(f) { return; }
      waitList := [Node(nextId, f)] + waitList;
      page2iter := page2iter[f := Some(nextId)];
      nextId := nextId + 1;
      assert Frames(waitList) == [f] + Frames(old(waitList));
      forall i | 0 <= i < |waitList| ensures Tracks(page2iter, waitList[i]) && waitList[i].id < nextId {
        if i > 0 {
          assert Tracks(old(page2iter), old(waitList)[i - 1]);
          assert old(waitList)[i - 1].frame in Frames(old(waitList)) by { assert Frames(old(waitList))[i - 1] == old(waitList)[i - 1].frame; }
        }
      }
    }
  }
}
