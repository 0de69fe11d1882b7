/**
  The blob class in one thread: handles on reference-counted containers, changed in place.  What
  several threads may do to the counts at once is BlobRefs.
 */
module Blobs {
  import opened Bytes

  class BlobData {
    var content: seq<octet>
    var refcount: int
    ghost var freed: bool

    constructor ()
      ensures content == [] && refcount == 1 && !freed
    {
      content, refcount, freed := [], 1, false;
    }

    method Ref()
      requires !freed
      modifies this`refcount
      ensures refcount == old(refcount) + 1
    {
      refcount := refcount + 1;
    }

    /** One reference less; the last one out deletes the container. */
    method Unref()
      requires !freed
      modifies this`refcount, this`freed
      ensures refcount == old(refcount) - 1 && freed == (refcount == 0)
    {
      refcount := refcount - 1;
      if refcount == 0 {
        freed := true;
      }
    }
  }

  // ---------------------------------------------------------------- all the handles there are

  /** The handles on a container. */
  ghost function Users(all: set<Blob>, d: BlobData): set<Blob>
    reads all
  {
    set b | b in all && b.container == d
  }

  ghost function Containers(all: set<Blob>): set<BlobData>
    reads all
  {
    set b | b in all && b.container != null :: b.container
  }

  /** A container in memory, its count the number of handles on it. */
  ghost predicate Right(all: set<Blob>, d: BlobData)
    reads all, d
  {
    !d.freed && d.refcount == |Users(all, d)|
  }

  ghost predicate Sound(all: set<Blob>)
    reads all, Containers(all)
  {
    forall d :: d in Containers(all) ==> Right(all, d)
  }

  lemma InMemory(all: set<Blob>, b: Blob)
    requires Sound(all) && b in all && b.container != null
    ensures b.container in Containers(all) && !b.container.freed
    ensures b.container.refcount == |Users(all, b.container)| >= 1
  {
    assert b.container in Containers(all) && Right(all, b.container);
    assert b in Users(all, b.container);
  }

  lemma LessOne(s: set<Blob>, x: Blob)
    ensures |s| == |s - {x}| + if x in s then 1 else 0
  {
  }

  /** What one handle's coming or going does to a set of handles. */
  lemma OneMoves(before: set<Blob>, after: set<Blob>, h: Blob)
    requires before - {h} == after - {h}
    ensures |after| == |before| + (if h in after then 1 else 0) - (if h in before then 1 else 0)
    ensures before == {h} <==> h in before && |before| == 1
  {
    LessOne(before, h);
    LessOne(after, h);
    assert h in before && |before| == 1 ==> |before - {h}| == 0;
  }

  class Blob {
    var container: BlobData?

    constructor Null()
      ensures container == null
    {
      container := null;
    }

    /** The constructors from data of some kind: a container of its own. */
    constructor Of(data: seq<octet>)
      ensures container != null && fresh(container) && container.content == data
      ensures container.refcount == 1 && !container.freed
    {
      var d := new BlobData();
      d.content := data;
      container := d;
    }

    /** The copy constructor: one handle more on the other's container. */
    constructor Copy(from: Blob)
      requires from.container != null ==> !from.container.freed
      modifies from.container
      ensures container == from.container
      ensures container != null ==>
                && container.refcount == old(from.container.refcount) + 1
                && container.content == old(from.container.content) && !container.freed
    {
      if from.container != null {
        from.container.Ref();
      }
      container := from.container;
    }

    /** What the handle shows: nothing, if it has no container. */
    function Get(): seq<octet>
      reads this, container
    {
      if container == null then [] else container.content
    }

    /**
      operator=: the new container gains a reference before the old one loses it, so that a handle
      assigned to itself keeps its container.
     */
    method Assign(from: Blob)
      requires from.container != null ==> !from.container.freed && from.container.refcount >= 1
      requires container != null ==> !container.freed
      modifies this`container, container, from.container
      ensures container == old(from.container)
      ensures container != null ==>
                && !container.freed && container.content == old(from.container.content)
                && container.refcount == old(from.container.refcount) + if container == old(container) then 0 else 1
      ensures old(container) != null && old(container) != container ==>
                var d := old(container);
                && d.refcount == old(d.refcount) - 1 && d.freed == (d.refcount == 0)
                && d.content == old(d.content)
    {
      if from.container != null {
        from.container.Ref();
      }
      if container != null {
        container.Unref();
      }
      container := from.container;
    }

    /** clear(), and the destructor but for the handle's own end. */
    method Clear()
      requires container != null ==> !container.freed
      modifies this`container, container
      ensures container == null
      ensures old(container) != null ==>
                var d := old(container);
                && d.refcount == old(d.refcount) - 1 && d.freed == (d.refcount == 0)
                && d.content == old(d.content)
    {
      if container != null {
        container.Unref();
      }
      container := null;
    }

    /** update(): the container to write to, a new one for a handle without. */
    method Update() returns (d: BlobData)
      modifies this`container
      ensures container == d
      ensures if old(container) == null then fresh(d) && d.content == [] && d.refcount == 1 && !d.freed
              else d == old(container)
    {
      if container == null {
        container := new BlobData();
      }
      d := container;
    }

    /** clone(): the same content in a container of its own. */
    method Clone() returns (b: Blob)
      ensures fresh(b) && b.Get() == Get()
      ensures if container == null then b.container == null
              else b.container != null && fresh(b.container) && b.container.refcount == 1
    {
      b := new Blob.Null();
      if container != null {
        var d := b.Update();
        d.content := container.content;
      }
    }
  }

  // ---------------------------------------------------------------- the handles stay sound

  lemma SoundAt(all: set<Blob>, d: BlobData)
    requires Sound(all) && d in Containers(all)
    ensures !d.freed && d.refcount == |Users(all, d)| >= 1
  {
    assert Right(all, d);
    var b :| b in all && b.container == d;
    InMemory(all, b);
  }

  /** Counts that are right keep what is in use in memory. */
  lemma SoundNow(all: set<Blob>, were: set<BlobData>)
    requires Containers(all) <= were
    requires forall d :: d in were ==> d.refcount == |Users(all, d)| && (d.freed ==> d.refcount == 0)
    ensures Sound(all)
  {
    forall d | d in Containers(all)
      ensures Right(all, d)
    {
      var b :| b in all && b.container == d;
      assert b in Users(all, d);
    }
  }

  /**
    An assignment among any handles: counts stay right, no content changes, and a container is
    freed exactly when the handle was the last on it and has moved elsewhere.
   */
  method AssignAmong(h: Blob, from: Blob, ghost all: set<Blob>)
    requires h in all && from in all && Sound(all)
    modifies h`container, Containers(all)
    ensures h.container == old(from.container) && Sound(all)
    ensures forall d :: d in old(Containers(all)) ==>
              && d.content == old(d.content)
              && d.freed == (d == old(h.container) && d != h.container && old(Users(all, d)) == {h})
  {
    ghost var were := Containers(all);
    forall d | d in were
      ensures !d.freed && d.refcount == |Users(all, d)| >= 1
    {
      SoundAt(all, d);
    }
    h.Assign(from);
    forall d | d in were
      ensures d.refcount == |Users(all, d)|
      ensures d.freed == (d == old(h.container) && d != h.container && old(Users(all, d)) == {h})
      ensures d.content == old(d.content)
    {
      OneMoves(old(Users(all, d)), Users(all, d), h);
    }
    SoundNow(all, were);
  }

  /** Clearing a handle frees its container exactly when it was the last on it. */
  method ClearAmong(h: Blob, ghost all: set<Blob>)
    requires h in all && Sound(all)
    modifies h`container, Containers(all)
    ensures h.container == null && Sound(all) && Sound(all - {h})
    ensures forall d :: d in old(Containers(all)) ==>
              && d.content == old(d.content)
              && d.freed == (d == old(h.container) && old(Users(all, d)) == {h})
  {
    ghost var were := Containers(all);
    forall d | d in were
      ensures !d.freed && d.refcount == |Users(all, d)| >= 1
    {
      SoundAt(all, d);
    }
    h.Clear();
    forall d | d in were
      ensures d.refcount == |Users(all, d)| && Users(all - {h}, d) == Users(all, d)
      ensures d.freed == (d == old(h.container) && old(Users(all, d)) == {h})
      ensures d.content == old(d.content)
    {
      OneMoves(old(Users(all, d)), Users(all, d), h);
    }
    SoundNow(all, were);
    SoundNow(all - {h}, were);
  }

  /** A copy joins the handles on its source's container, and nothing else changes. */
  method CopyAmong(from: Blob, ghost all: set<Blob>) returns (b: Blob)
    requires from in all && Sound(all)
    modifies Containers(all)
    ensures fresh(b) && b.container == from.container && Sound(all + {b})
    ensures forall d :: d in Containers(all) ==> d.content == old(d.content)
  {
    ghost var were := Containers(all);
    forall d | d in were
      ensures !d.freed && d.refcount == |Users(all, d)| >= 1
    {
      SoundAt(all, d);
    }
    b := new Blob.Copy(from);
    forall d | d in were
      ensures d.refcount == |Users(all + {b}, d)| && !d.freed && d.content == old(d.content)
    {
      OneMoves(old(Users(all, d)), Users(all + {b}, d), b);
    }
    SoundNow(all + {b}, were);
  }
}
