/** scripts/filesend.py: a file sent to a peripheral in fragments, each repeated until answered. */
module FileSend {
  import opened Bytes

  const FRAGMENT: nat := 100
  const LONG: nat := 0x1_0000_0000

  /** A published OSDP_FILETRANSFER record: total size, offset, fragment size, fragment. */
  datatype Record = Record(total: nat, offset: nat, size: nat, data: bytes)

  /** What one pass of the inner loop meets with. */
  datatype Turn =
    | Offline             // the slave has been published offline
    | Silent              // published, and no status within the second
    | Malformed           // a status record that does not unpack
    | Status(code: int)   // a status record

  datatype End =
    | Finished            // run returns
    | Abandoned           // the exception for silence after the end of the image
    | BadStatus           // unpacking the status raises
    | BadRecord           // packing the record raises: the size does not fit in 32 bits
    | Running             // nothing more is known of the world

  class Uploader {
    const image: bytes
    var turns: seq<Turn>       // what the world has in store
    var published: seq<Record>
    var offset: nat
    var frag: nat
    var fin: bool

    constructor (image: bytes, turns: seq<Turn>)
      ensures this.image == image && this.turns == turns && published == []
    {
      this.image, this.turns := image, turns;
      published, offset, frag, fin := [], 0, FRAGMENT, false;
    }

    /** The position stays inside the image, on a multiple of a full fragment until the end. */
    predicate At(n: nat)
      reads this`offset, this`frag
    {
      && offset == Min(n * FRAGMENT, |image|)
      && frag <= FRAGMENT
      && (offset + FRAGMENT <= |image| ==> frag == FRAGMENT)
      && (offset + FRAGMENT > |image| ==> offset + frag >= |image|)
    }

    /** Publish the fragment at offset, cut short at the end of the image. */
    method Publish(ghost n: nat) returns (packed: bool)
      requires At(n)
      modifies this`published, this`frag
      ensures At(n) && packed == (|image| < LONG)
      ensures frag == Fragment(image, n).size
      ensures published == old(published) + if packed then [Fragment(image, n)] else []
    {
      if offset + frag > |image| {
        frag := |image| - offset;
      }
      if |image| >= LONG {
        return false;
      }
      published := published + [Record(|image|, offset, frag, image[offset..offset+frag])];
      return true;
    }

    /** Publish the fragment at offset and wait for a status, over and over until there is one. */
    method SendFragment(ghost n: nat) returns (end: End, status: int)
      requires At(n) && (offset < |image| || !fin)
      modifies this`turns, this`published, this`frag
      ensures old(published) <= published && |turns| <= |old(turns)|
      ensures var sent := published[|old(published)|..];
              if end != Finished then
                Upload(image, old(turns), n, fin) == Result(end, sent)
              else
                && At(n) && frag == Fragment(image, n).size && |turns| < |old(turns)|
                && Upload(image, old(turns), n, fin) ==
                   Upload(image, turns, n + 1, fin || status == 2).After(sent)
    {
      hide Upload, Fragment, Result.After;
      status := 0;
      ghost var sent: seq<Record> := [];
      SentBefore(sent, Fragment(image, n));
      var retry := true;
      while retry
        invariant At(n) && published == old(published) + sent && |turns| <= |old(turns)|
        invariant retry ==> Upload(image, old(turns), n, fin) == Upload(image, turns, n, fin).After(sent)
        invariant !retry ==> frag == Fragment(image, n).size && |turns| < |old(turns)|
        invariant !retry ==> Upload(image, old(turns), n, fin) ==
                             Upload(image, turns, n + 1, fin || status == 2).After(sent)
        decreases retry, |turns|
      {
        OneTurn(image, turns, n, fin);
        SentBefore(sent, Fragment(image, n));
        if turns == [] {
          return Running, status;
        }
        var turn := turns[0];
        turns := turns[1..];
        if turn.Offline? {
          continue;
        }
        retry := false;
        var packed := Publish(n);
        if !packed {
          return BadRecord, status;
        }
        sent := sent + [Fragment(image, n)];
        match turn
        case Silent =>
          if offset == |image| {
            return Abandoned, status;
          }
          retry := true;
        case Malformed =>
          return BadStatus, status;
        case Status(code) =>
          status := code;
      }
      end := Finished;
    }

    /** The fragment was answered: on to the next, and note whether the peripheral is done. */
    method Advance(ghost n: nat, status: int)
      requires At(n) && frag == Fragment(image, n).size
      modifies this`offset, this`fin
      ensures At(n + 1) && fin == (old(fin) || status == 2)
    {
      offset := offset + frag;
      if status == 2 {
        fin := true;
      }
    }

    /** Upload the image. */
    method Run() returns (end: End)
      requires published == [] && offset == 0 && frag == FRAGMENT && !fin
      modifies this
      ensures Upload(image, old(turns), 0, false) == Result(end, published)
      ensures end == Finished ==> offset == |image| && fin
    {
      hide Upload, Fragment;
      ghost var n: nat := 0;
      while offset < |image| || !fin
        invariant At(n)
        invariant Upload(image, old(turns), 0, false) == Upload(image, turns, n, fin).After(published)
        decreases |turns|
      {
        ghost var before := published;
        var status;
        end, status := SendFragment(n);
        ghost var sent := published[|before|..];
        assert published == before + sent;
        if end != Finished {
          return;
        }
        ghost var left := Upload(image, turns, n + 1, fin || status == 2);
        assert before + (sent + left.sent) == (before + sent) + left.sent;
        Advance(n, status);
        n := n + 1;
      }
      NothingLeft(image, turns, n);
      end := Finished;
    }
  }

  lemma NothingLeft(image: bytes, turns: seq<Turn>, n: nat)
    requires n * FRAGMENT >= |image|
    ensures Upload(image, turns, n, true) == Result(Finished, [])
  {
  }

  // ---------------------------------------------------------------- an upload, as a value

  /** The fragment due when n statuses have come: the nth hundred of the image, or what is there. */
  function Fragment(image: bytes, n: nat): (r: Record)
    ensures r.offset + r.size <= |image|
  {
    var offset := Min(n * FRAGMENT, |image|);
    var size := Min(FRAGMENT, |image| - offset);
    Record(|image|, offset, size, image[offset..offset+size])
  }

  datatype Result = Result(end: End, sent: seq<Record>) {
    function After(earlier: seq<Record>): Result { Result(end, earlier + sent) }
  }

  /**
    How an upload goes on when n statuses have come, in terms of the statuses alone: every turn
    not spent offline sends the fragment due, and a status makes the next one due.
   */
  function Upload(image: bytes, turns: seq<Turn>, n: nat, fin: bool): Result
    decreases |turns|
  {
    if n * FRAGMENT >= |image| && fin then Result(Finished, [])
    else if turns == [] then Result(Running, [])
    else if turns[0].Offline? then Upload(image, turns[1..], n, fin)
    else if |image| >= LONG then Result(BadRecord, [])
    else
      var sent := [Fragment(image, n)];
      match turns[0]
      case Malformed => Result(BadStatus, sent)
      case Silent =>
        if n * FRAGMENT >= |image| then Result(Abandoned, sent)
        else Upload(image, turns[1..], n, fin).After(sent)
      case Status(c) => Upload(image, turns[1..], n + 1, fin || c == 2).After(sent)
  }

  /** Records sent before others. */
  lemma SentBefore(sent: seq<Record>, r: Record)
    ensures forall u: Result :: u.After([r]).After(sent) == u.After(sent + [r])
    ensures forall u: Result :: u.After([]) == u
    ensures forall e: End, later: seq<Record> :: Result(e, later).After(sent) == Result(e, sent + later)
  {
    forall u: Result
      ensures u.After([r]).After(sent) == u.After(sent + [r]) && u.After([]) == u
    {
      assert sent + ([r] + u.sent) == (sent + [r]) + u.sent;
      assert [] + u.sent == u.sent;
    }
  }

  /** One turn of an upload that goes on. */
  lemma OneTurn(image: bytes, turns: seq<Turn>, n: nat, fin: bool)
    requires n * FRAGMENT < |image| || !fin
    ensures var u, sent := Upload(image, turns, n, fin), [Fragment(image, n)];
            if turns == [] then u == Result(Running, [])
            else if turns[0].Offline? then u == Upload(image, turns[1..], n, fin)
            else if |image| >= LONG then u == Result(BadRecord, [])
            else if turns[0].Malformed? then u == Result(BadStatus, sent)
            else if turns[0].Status? then
              u == Upload(image, turns[1..], n + 1, fin || turns[0].code == 2).After(sent)
            else if n * FRAGMENT >= |image| then u == Result(Abandoned, sent)
            else u == Upload(image, turns[1..], n, fin).After(sent)
  {
  }

  // ---------------------------------------------------------------- what was sent, and when

  /** The turns in which something is sent. */
  function Online(turns: seq<Turn>): seq<Turn> {
    if turns == [] then []
    else if turns[0].Offline? then Online(turns[1..])
    else [turns[0]] + Online(turns[1..])
  }

  function Statuses(turns: seq<Turn>): nat {
    if turns == [] then 0 else (if turns[0].Status? then 1 else 0) + Statuses(turns[1..])
  }

  /**
    The ith record sent carries the fragment due by the number of statuses before it: an unanswered
    one is sent again as it was, an answered one is followed by its neighbour.
   */
  lemma {:induction false} SentInTurn(image: bytes, turns: seq<Turn>, n: nat, fin: bool, i: nat)
    requires i < |Upload(image, turns, n, fin).sent|
    ensures i < |Online(turns)|
    ensures Upload(image, turns, n, fin).sent[i] == Fragment(image, n + Statuses(Online(turns)[..i]))
    decreases |turns|
  {
    hide Fragment;
    var rest := turns[1..];
    if turns[0].Offline? {
      SentInTurn(image, rest, n, fin, i);
    } else if i > 0 {
      var c := turns[0];
      if c.Status? {
        SentInTurn(image, rest, n + 1, fin || c.code == 2, i - 1);
      } else {
        SentInTurn(image, rest, n, fin, i - 1);
      }
      assert Online(turns)[..i][1..] == Online(rest)[..i-1];
    }
  }

  /** The record by value: a hundred bytes for each status before it, and the next hundred, or what there is. */
  lemma RecordByValue(image: bytes, turns: seq<Turn>, i: nat)
    requires i < |Upload(image, turns, 0, false).sent|
    ensures i < |Online(turns)|
    ensures var r, k := Upload(image, turns, 0, false).sent[i], 100 * Statuses(Online(turns)[..i]);
            && r.total == |image| && r.size == |r.data|
            && (if k + 100 <= |image| then r.offset == k && r.data == image[k..k+100]
                else if k <= |image| then r.offset == k && r.data == image[k..]
                else r.offset == |image| && r.data == [])
  {
    SentInTurn(image, turns, 0, false, i);
    var n := Statuses(Online(turns)[..i]);
    hide Upload, Online, Statuses;
    assert Fragment(image, n).total == |image|;
  }

  lemma {:induction false} StatusesSnoc(turns: seq<Turn>, t: Turn)
    ensures Statuses(turns + [t]) == Statuses(turns) + if t.Status? then 1 else 0
  {
    if turns != [] {
      assert (turns + [t])[1..] == turns[1..] + [t];
      StatusesSnoc(turns[1..], t);
    }
  }

  /** A record not answered is followed by itself, an answered one by the next piece of the image. */
  lemma RetryOrAdvance(image: bytes, turns: seq<Turn>, i: nat)
    requires i + 1 < |Upload(image, turns, 0, false).sent|
    ensures i < |Online(turns)|
    ensures var sent := Upload(image, turns, 0, false).sent; var r, next := sent[i], sent[i + 1];
            if Online(turns)[i].Status? then next.offset == r.offset + r.size else next == r
  {
    SentInTurn(image, turns, 0, false, i);
    SentInTurn(image, turns, 0, false, i + 1);
    var o := Online(turns);
    assert o[..i+1] == o[..i] + [o[i]];
    StatusesSnoc(o[..i], o[i]);
  }

  /** Every record tells the truth about a part of the image, of a hundred bytes at most. */
  predicate Honest(image: bytes, r: Record) {
    && r.total == |image| && r.size == |r.data| <= FRAGMENT && r.offset + r.size <= |image|
    && r.data == image[r.offset..r.offset+r.size]
  }

  lemma AllHonest(image: bytes, turns: seq<Turn>, r: Record)
    requires r in Upload(image, turns, 0, false).sent
    ensures Honest(image, r)
  {
    var i :| 0 <= i < |Upload(image, turns, 0, false).sent| && Upload(image, turns, 0, false).sent[i] == r;
    SentInTurn(image, turns, 0, false, i);
  }

  // ---------------------------------------------------------------- the other end

  /** Store a fragment at its stated offset. */
  function Store(file: bytes, r: Record): (f: bytes)
    requires r.offset + |r.data| <= |file|
    ensures |f| == |file|
  {
    file[..r.offset] + r.data + file[r.offset+|r.data|..]
  }

  ghost predicate Fit(rs: seq<Record>, n: nat) {
    forall r :: r in rs ==> r.offset + |r.data| <= n
  }

  ghost function StoreAll(file: bytes, rs: seq<Record>): (f: bytes)
    requires Fit(rs, |file|)
    ensures |f| == |file|
  {
    if rs == [] then file else Store(StoreAll(file, rs[..|rs|-1]), rs[|rs|-1])
  }

  predicate Covers(r: Record, k: nat) { r.offset <= k < r.offset + r.size }

  /** Honest records leave the image where they reach, in whatever order and however often stored. */
  lemma {:induction false} StoredAt(image: bytes, file: bytes, rs: seq<Record>, k: nat)
    requires |file| == |image| && k < |image|
    requires Fit(rs, |file|) && forall r :: r in rs ==> Honest(image, r)
    ensures StoreAll(file, rs)[k] == if exists r :: r in rs && Covers(r, k) then image[k] else file[k]
  {
    if rs != [] {
      var before, last := rs[..|rs|-1], rs[|rs|-1];
      StoredAt(image, file, before, k);
      assert rs == before + [last];
      assert last in rs && Honest(image, last);
      StoreOne(image, StoreAll(file, before), last, k);
      hide Honest, Store, StoreAll, Covers;
      if Covers(last, k) {
        assert exists r :: r in rs && Covers(r, k);
      }
    }
  }

  lemma StoreOne(image: bytes, file: bytes, r: Record, k: nat)
    requires |file| == |image| && k < |image| && Honest(image, r)
    ensures Store(file, r)[k] == if Covers(r, k) then image[k] else file[k]
  {
  }

  /** When run returns, every byte of the image due since the nth fragment has been sent. */
  lemma {:induction false} AllCovered(image: bytes, turns: seq<Turn>, n: nat, fin: bool, k: nat) returns (r: Record)
    requires Upload(image, turns, n, fin).end == Finished
    requires n * FRAGMENT <= k < |image|
    ensures r in Upload(image, turns, n, fin).sent && Covers(r, k)
    decreases |turns|
  {
    var rest := turns[1..];
    if turns[0].Offline? {
      r := AllCovered(image, rest, n, fin, k);
    } else if turns[0].Silent? {
      r := AllCovered(image, rest, n, fin, k);
    } else if k < (n + 1) * FRAGMENT {
      r := Fragment(image, n);
    } else {
      r := AllCovered(image, rest, n + 1, fin || turns[0].code == 2, k);
    }
  }

  /**
    Whatever the silences, offline spells and early finishes: when run returns, the records
    published rebuild the image from any file of its size, in whatever order they are stored and
    however often each.
   */
  lemma UploadRebuilds(image: bytes, turns: seq<Turn>, stored: seq<Record>, file: bytes)
    requires Upload(image, turns, 0, false).end == Finished && |file| == |image|
    requires forall r :: r in stored <==> r in Upload(image, turns, 0, false).sent
    ensures forall r :: r in stored ==> Honest(image, r)
    ensures Fit(stored, |file|) && StoreAll(file, stored) == image
  {
    hide Upload, StoreAll, Honest, Covers;
    forall r | r in stored
      ensures Honest(image, r) && r.offset + |r.data| <= |file|
    {
      AllHonest(image, turns, r);
      HonestFits(image, r);
    }
    forall k | 0 <= k < |image|
      ensures StoreAll(file, stored)[k] == image[k]
    {
      var r := AllCovered(image, turns, 0, false, k);
      StoredAt(image, file, stored, k);
      assert r in stored && Covers(r, k);
    }
  }

  lemma HonestFits(image: bytes, r: Record)
    requires Honest(image, r)
    ensures r.offset + |r.data| <= |image|
  {
  }

  /** run returns only when the peripheral has said that it is done. */
  lemma {:induction false} FinishedWhenTold(image: bytes, turns: seq<Turn>, n: nat, fin: bool)
    requires Upload(image, turns, n, fin).end == Finished
    ensures var u := Upload(image, turns, n, fin); var o := Online(turns);
            && |u.sent| <= |o| && (fin || Status(2) in o[..|u.sent|])
            && (n + Statuses(o[..|u.sent|])) * FRAGMENT >= |image|
    decreases |turns|
  {
    if turns != [] && !(n * FRAGMENT >= |image| && fin) {
      hide Fragment;
      var rest, c := turns[1..], turns[0];
      if c.Offline? {
        FinishedWhenTold(image, rest, n, fin);
      } else {
        var m, f := if c.Status? then n + 1 else n, fin || c == Status(2);
        FinishedWhenTold(image, rest, m, f);
        var k := |Upload(image, rest, m, f).sent|;
        assert Upload(image, turns, n, fin).sent == [Fragment(image, n)] + Upload(image, rest, m, f).sent;
        assert Online(turns)[..k+1] == [c] + Online(rest)[..k];
      }
    }
  }

  // ---------------------------------------------------------------- how an upload ends

  /** After k of the turns o the whole image has been acknowledged and a status of 2 has come. */
  predicate Complete(image: bytes, o: seq<Turn>, n: nat, fin: bool, k: nat)
    requires k <= |o|
  {
    100 * (n + Statuses(o[..k])) >= |image| && (fin || Status(2) in o[..k])
  }

  /** Turn k of o is one that raises: a malformed status, or silence behind the end of the image. */
  predicate Raises(image: bytes, o: seq<Turn>, n: nat, k: nat)
    requires k < |o|
  {
    o[k].Malformed? || (o[k].Silent? && 100 * (n + Statuses(o[..k])) >= |image|)
  }

  /** The upload goes on until it is complete, a turn raises, or the turns give out. */
  ghost predicate EndsAfter(image: bytes, o: seq<Turn>, n: nat, fin: bool, end: End, m: nat) {
    && m <= |o|
    && (forall k :: 0 <= k < m ==> !Complete(image, o, n, fin, k))
    && (forall k :: 0 <= k < m - 1 ==> !Raises(image, o, n, k))
    && if m > 0 && Raises(image, o, n, m - 1) then end == if o[m-1].Malformed? then BadStatus else Abandoned
       else if Complete(image, o, n, fin, m) then end == Finished
       else m == |o| && end == Running
  }

  lemma OneMoreTurn(image: bytes, c: Turn, o: seq<Turn>, n: nat, fin: bool, k: nat)
    requires k <= |o|
    ensures var all, n', fin' := [c] + o, if c.Status? then n + 1 else n, fin || c == Status(2);
            && Complete(image, all, n, fin, k + 1) == Complete(image, o, n', fin', k)
            && (k < |o| ==> Raises(image, all, n, k + 1) == Raises(image, o, n', k))
  {
    assert ([c] + o)[..k+1] == [c] + o[..k];
    assert forall t :: t in [c] + o[..k] <==> t == c || t in o[..k];
    assert ([c] + o[..k])[1..] == o[..k];
  }

  lemma EndsLater(image: bytes, c: Turn, o: seq<Turn>, n: nat, fin: bool, end: End, m: nat)
    requires EndsAfter(image, o, if c.Status? then n + 1 else n, fin || c == Status(2), end, m)
    requires !Complete(image, [c] + o, n, fin, 0) && !Raises(image, [c] + o, n, 0)
    ensures EndsAfter(image, [c] + o, n, fin, end, m + 1)
  {
    hide Complete, Raises;
    var all := [c] + o;
    OneMoreTurn(image, c, o, n, fin, m);
    if m > 0 {
      OneMoreTurn(image, c, o, n, fin, m - 1);
    }
    forall k | 0 <= k < m + 1
      ensures !Complete(image, all, n, fin, k)
    {
      if k > 0 {
        OneMoreTurn(image, c, o, n, fin, k - 1);
      }
    }
    forall k | 0 <= k < m
      ensures !Raises(image, all, n, k)
    {
      if k > 0 {
        OneMoreTurn(image, c, o, n, fin, k - 1);
      }
    }
  }

  lemma {:induction false} EndsFrom(image: bytes, turns: seq<Turn>, n: nat, fin: bool)
    requires |image| < 0x1_0000_0000
    ensures var u := Upload(image, turns, n, fin);
            EndsAfter(image, Online(turns), n, fin, u.end, |u.sent|)
    decreases |turns|
  {
    var o := Online(turns);
    assert o[..0] == [];
    if !(n * FRAGMENT >= |image| && fin) && turns != [] {
      hide Fragment, EndsAfter;
      var c, rest := turns[0], turns[1..];
      if c.Offline? {
        EndsFrom(image, rest, n, fin);
      } else if c.Malformed? || (c.Silent? && n * FRAGMENT >= |image|) {
        EndsNow(image, c, Online(rest), n, fin);
      } else {
        EndsFrom(image, rest, if c.Status? then n + 1 else n, fin || c == Status(2));
        var u := Upload(image, rest, if c.Status? then n + 1 else n, fin || c == Status(2));
        EndsLater(image, c, Online(rest), n, fin, u.end, |u.sent|);
      }
    }
  }

  lemma EndsNow(image: bytes, c: Turn, o: seq<Turn>, n: nat, fin: bool)
    requires !(100 * n >= |image| && fin)
    requires c.Malformed? || (c.Silent? && 100 * n >= |image|)
    ensures EndsAfter(image, [c] + o, n, fin, if c.Malformed? then BadStatus else Abandoned, 1)
  {
    assert ([c] + o)[..0] == [];
  }

  /**
    How an upload ends, by what the peripheral does in the turns it is online: run returns at the
    first moment that the image is acknowledged to its end and a status of 2 has come; before that a
    malformed status, or silence behind the end of the image, stops it; nothing else does.
   */
  lemma UploadEnds(image: bytes, turns: seq<Turn>)
    requires |image| < 0x1_0000_0000
    ensures var u, o := Upload(image, turns, 0, false), Online(turns); var m := |u.sent|;
            && m <= |o|
            && (forall k :: 0 <= k < m ==> 100 * Statuses(o[..k]) < |image| || Status(2) !in o[..k])
            && (forall k :: 0 <= k < m - 1 ==> !o[k].Malformed? && (o[k].Silent? ==> 100 * Statuses(o[..k]) < |image|))
            && if m > 0 && o[m-1].Malformed? then u.end == BadStatus
               else if m > 0 && o[m-1].Silent? && 100 * Statuses(o[..m-1]) >= |image| then u.end == Abandoned
               else if 100 * Statuses(o[..m]) >= |image| && Status(2) in o[..m] then u.end == Finished
               else m == |o| && u.end == Running
  {
    hide Upload, Online, Statuses;
    EndsFrom(image, turns, 0, false);
    var u, o := Upload(image, turns, 0, false), Online(turns);
    forall k | 0 <= k < |u.sent|
      ensures 100 * Statuses(o[..k]) < |image| || Status(2) !in o[..k]
    {
      assert !Complete(image, o, 0, false, k);
    }
    forall k | 0 <= k < |u.sent| - 1
      ensures !o[k].Malformed? && (o[k].Silent? ==> 100 * Statuses(o[..k]) < |image|)
    {
      assert !Raises(image, o, 0, k);
    }
  }

  /** An image whose size does not fit in 32 bits cannot be sent at all. */
  lemma {:induction false} TooLongToSend(image: bytes, turns: seq<Turn>)
    requires |image| >= 0x1_0000_0000
    ensures Upload(image, turns, 0, false) == Result(if Online(turns) == [] then Running else BadRecord, [])
  {
    if turns != [] && turns[0].Offline? {
      TooLongToSend(image, turns[1..]);
    }
  }
}
