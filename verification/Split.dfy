/** split and join of split.h, for a one-character separator. */
module Split {

  /** The position of the first separator, or the length when there is none. */
  function First(s: string, sep: char): (e: nat)
    ensures e <= |s|
    ensures e < |s| ==> s[e] == sep
    ensures sep !in s[..e]
  {
    if s == "" || s[0] == sep then 0
    else
      var e := 1 + First(s[1..], sep);
      assert s[..e] == [s[0]] + s[1..][..e-1];
      e
  }

  /** May another piece be cut off?  A count of zero sets no limit; a negative one allows none. */
  predicate MayCut(count: int, cuts: nat) { count == 0 || cuts < count }

  /** The pieces of what is left of a string when so many have been cut off it. */
  function Pieces(s: string, sep: char, count: int, cuts: nat): seq<string>
    decreases |s|
  {
    if s == "" then []
    else if !MayCut(count, cuts) then [s]
    else
      var e := First(s, sep);
      [s[..e]] + if e == |s| then [] else Pieces(s[e+1..], sep, count, cuts + 1)
  }

  function Joined(parts: seq<string>, sep: char): string {
    if parts == [] then ""
    else if |parts| == 1 then parts[0]
    else parts[0] + [sep] + Joined(parts[1..], sep)
  }

  /** Cut str at the separators and append the pieces to those already there. */
  method SplitInto(str: string, into: seq<string>, sep: char, count: int) returns (xsplit: seq<string>)
    ensures xsplit == into + Pieces(str, sep, count, 0)
  {
    hide First, Pieces;
    xsplit := into;
    var splitcount, pos := 0, 0;
    assert str[0..] == str;
    while (count == 0 || splitcount < count) && pos < |str|
      invariant splitcount >= 0 && 0 <= pos <= |str|
      invariant xsplit + Pieces(str[pos..], sep, count, splitcount) == into + Pieces(str, sep, count, 0)
      decreases |str| - pos
    {
      CutOne(str, sep, count, pos, splitcount);
      var endpos := pos + First(str[pos..], sep);
      var nextpos := endpos;
      if endpos < |str| {
        nextpos := endpos + 1;
      }
      ghost var left := Pieces(str[nextpos..], sep, count, splitcount + 1);
      assert xsplit + ([str[pos..endpos]] + left) == xsplit + [str[pos..endpos]] + left;
      xsplit := xsplit + [str[pos..endpos]];
      splitcount := splitcount + 1;
      pos := nextpos;
    }
    LastPiece(str[pos..], sep, count, splitcount);
    if pos < |str| {
      xsplit := xsplit + [str[pos..]];
    }
  }

  lemma CutOne(s: string, sep: char, count: int, pos: nat, cuts: nat)
    requires pos < |s| && MayCut(count, cuts)
    ensures var e := pos + First(s[pos..], sep);
            Pieces(s[pos..], sep, count, cuts) ==
            [s[pos..e]] + Pieces(s[if e < |s| then e + 1 else e..], sep, count, cuts + 1)
  {
    hide First;
    assert s[|s|..] == "" && Pieces("", sep, count, cuts + 1) == [];
    Slices(s, pos, First(s[pos..], sep));
  }

  lemma Slices(s: string, pos: nat, d: nat)
    requires pos + d <= |s|
    ensures s[pos..][..d] == s[pos..pos+d]
    ensures pos + d < |s| ==> s[pos..][d+1..] == s[pos+d+1..]
  {
  }

  lemma LastPiece(s: string, sep: char, count: int, cuts: nat)
    requires s == "" || !MayCut(count, cuts)
    ensures Pieces(s, sep, count, cuts) == if s == "" then [] else [s]
  {
  }

  /** Put the parts together with a separator before every one but the first. */
  method Join(xsplit: seq<string>, sep: char) returns (combined: string)
    ensures combined == Joined(xsplit, sep)
  {
    combined := "";
    var div := "";
    var i := 0;
    while i < |xsplit|
      invariant 0 <= i <= |xsplit| && div == (if i == 0 then "" else [sep])
      invariant combined == Joined(xsplit[..i], sep)
    {
      JoinedSnoc(xsplit[..i], xsplit[i], sep);
      assert xsplit[..i+1] == xsplit[..i] + [xsplit[i]];
      combined := combined + div + xsplit[i];
      div := [sep];
      i := i + 1;
    }
    assert xsplit[..|xsplit|] == xsplit;
  }

  lemma {:induction false} JoinedSnoc(parts: seq<string>, last: string, sep: char)
    ensures Joined(parts + [last], sep) ==
            Joined(parts, sep) + (if parts == [] then "" else [sep]) + last
  {
    if |parts| > 1 {
      JoinedSnoc(parts[1..], last, sep);
      assert (parts + [last])[1..] == parts[1..] + [last];
    } else if |parts| == 1 {
      assert (parts + [last])[1..] == [last];
    }
  }

  /** Where part i begins: behind the ones before it and a separator for each. */
  function Offset(parts: seq<string>, i: nat): nat
    requires i <= |parts|
  {
    if i == 0 then 0 else Offset(parts, i - 1) + |parts[i-1]| + 1
  }

  lemma {:induction false} OffsetOfPrefix(parts: seq<string>, n: nat, i: nat)
    requires i <= n <= |parts|
    ensures Offset(parts[..n], i) == Offset(parts, i)
  {
    if i > 0 {
      OffsetOfPrefix(parts, n, i - 1);
    }
  }

  lemma {:induction false} JoinedLength(parts: seq<string>, sep: char)
    requires parts != []
    ensures |Joined(parts, sep)| + 1 == Offset(parts, |parts|)
    decreases |parts|
  {
    hide Joined;
    var n := |parts| - 1;
    JoinedSnoc(parts[..n], parts[n], sep);
    assert parts == parts[..n] + [parts[n]];
    OffsetOfPrefix(parts, n, n);
    if n > 0 {
      JoinedLength(parts[..n], sep);
    } else {
      assert Joined([], sep) == "" by { NoParts(sep); }
    }
  }

  lemma NoParts(sep: char)
    ensures Joined([], sep) == ""
  {
  }

  /** Each part stands at its place in what is joined, with a separator before the next. */
  lemma {:induction false} PartAt(parts: seq<string>, sep: char, i: nat)
    requires i < |parts|
    ensures var s, k, e := Joined(parts, sep), Offset(parts, i), Offset(parts, i) + |parts[i]|;
            && e <= |s| && s[k..e] == parts[i]
            && (if i + 1 < |parts| then e < |s| && s[e] == sep else e == |s|)
    decreases |parts|
  {
    hide Joined;
    var n := |parts| - 1;
    JoinedSnoc(parts[..n], parts[n], sep);
    assert parts == parts[..n] + [parts[n]];
    OffsetOfPrefix(parts, n, i);
    JoinedLength(parts, sep);
    if i < n {
      JoinedLength(parts[..n], sep);
      PartAt(parts[..n], sep, i);
      assert parts[..n] != [];
      OffsetOfPrefix(parts, n, n);
    }
  }

  // ---------------------------------------------------------------- join of split

  function Separators(s: string, sep: char): nat {
    if s == "" then 0 else (if s[0] == sep then 1 else 0) + Separators(s[1..], sep)
  }

  /** The string ends in a separator, and every separator of it is cut at. */
  predicate LosesLast(s: string, sep: char, count: int, cuts: nat) {
    && s != "" && s[|s|-1] == sep
    && (count == 0 || cuts + Separators(s, sep) <= count)
  }

  /** Every separator but the first comes after it. */
  lemma {:induction false} AfterFirst(s: string, sep: char)
    ensures var e := First(s, sep);
            Separators(s, sep) == if e == |s| then 0 else 1 + Separators(s[e+1..], sep)
  {
    if s != "" && s[0] != sep {
      AfterFirst(s[1..], sep);
      var e := First(s, sep);
      assert e < |s| ==> s[1..][e..] == s[e+1..];
    }
  }

  lemma {:induction false} JoinOfPieces(s: string, sep: char, count: int, cuts: nat)
    ensures Joined(Pieces(s, sep, count, cuts), sep) ==
            if LosesLast(s, sep, count, cuts) then s[..|s|-1] else s
    decreases |s|
  {
    hide First, Separators;
    AfterFirst(s, sep);
    var e := First(s, sep);
    if s != "" && MayCut(count, cuts) && e < |s| {
      var t := s[e+1..];
      assert s == s[..e] + [sep] + t;
      JoinOfPieces(t, sep, count, cuts + 1);
      LastOfRest(s, sep, count, cuts, e);
    } else if s != "" && e == |s| {
      assert s[..e] == s;
    }
  }

  /** Whether the last separator is lost is settled by what comes after the first. */
  lemma LastOfRest(s: string, sep: char, count: int, cuts: nat, e: nat)
    requires e == First(s, sep) < |s| && MayCut(count, cuts)
    ensures var t := s[e+1..];
            && LosesLast(s, sep, count, cuts) == (t == "" || LosesLast(t, sep, count, cuts + 1))
            && (t == "" ==> s[..|s|-1] == s[..e])
            && (t != "" ==> s[..|s|-1] == s[..e] + [sep] + t[..|t|-1])
  {
    AfterFirst(s, sep);
    if s[e+1..] == "" {
      assert Separators("", sep) == 0;
    }
  }

  lemma {:induction false} SeparatorsCounted(s: string, sep: char)
    ensures Separators(s, sep) == multiset(s)[sep]
  {
    if s != "" {
      assert s == [s[0]] + s[1..];
      SeparatorsCounted(s[1..], sep);
    }
  }

  /** join of split is the string, less one final separator exactly when that was cut at. */
  lemma JoinOfSplit(s: string, sep: char, count: int)
    ensures Joined(Pieces(s, sep, count, 0), sep) ==
            if s != "" && s[|s|-1] == sep && (count == 0 || multiset(s)[sep] <= count) then s[..|s|-1] else s
  {
    SeparatorsCounted(s, sep);
    JoinOfPieces(s, sep, count, 0);
  }

  // ---------------------------------------------------------------- split of join

  /** The pieces of an unlimited split hold no separator. */
  lemma {:induction false} PiecesAreClean(s: string, sep: char, cuts: nat)
    ensures forall x :: x in Pieces(s, sep, 0, cuts) ==> sep !in x
    decreases |s|
  {
    hide First;
    var e := First(s, sep);
    if e < |s| {
      PiecesAreClean(s[e+1..], sep, cuts + 1);
    } else {
      assert s[..e] == s;
    }
  }

  /** Without a limit it does not matter how much has been cut off before. */
  lemma {:induction false} CutsDoNotMatter(s: string, sep: char, cuts: nat, fewer: nat)
    ensures Pieces(s, sep, 0, cuts) == Pieces(s, sep, 0, fewer)
    decreases |s|
  {
    hide First;
    var e := First(s, sep);
    if e < |s| {
      CutsDoNotMatter(s[e+1..], sep, cuts + 1, fewer + 1);
    }
  }

  lemma {:induction false} FirstAfter(head: string, t: string, sep: char)
    requires sep !in head && (t == "" || t[0] == sep)
    ensures First(head + t, sep) == |head|
  {
    if head == "" {
      assert head + t == t;
    } else {
      assert (head + t)[1..] == head[1..] + t;
      FirstAfter(head[1..], t, sep);
    }
  }

  /** One part, a separator and a text: the part is the first piece. */
  lemma FirstPiece(head: string, tail: string, sep: char)
    requires sep !in head
    ensures Pieces(head + [sep] + tail, sep, 0, 0) == [head] + Pieces(tail, sep, 0, 0)
  {
    hide First;
    var s := head + [sep] + tail;
    assert s == head + ([sep] + tail);
    FirstAfter(head, [sep] + tail, sep);
    CutsDoNotMatter(tail, sep, 1, 0);
    assert s[..|head|] == head && s[|head|+1..] == tail;
  }

  lemma {:induction false} SplitUndoesJoin(parts: seq<string>, sep: char)
    requires forall p :: p in parts ==> sep !in p
    requires parts != [] ==> parts[|parts|-1] != ""
    ensures Pieces(Joined(parts, sep), sep, 0, 0) == parts
  {
    hide First, Pieces;
    if parts == [] {
      LastPiece("", sep, 0, 0);
    } else if |parts| == 1 {
      assert parts[0] in parts;
      OnlyPiece(parts[0], sep);
    } else {
      assert parts[0] in parts;
      FirstPiece(parts[0], Joined(parts[1..], sep), sep);
      SplitUndoesJoin(parts[1..], sep);
    }
  }

  lemma OnlyPiece(part: string, sep: char)
    requires part != "" && sep !in part
    ensures Pieces(part, sep, 0, 0) == [part]
  {
    FirstAfter(part, "", sep);
    hide First;
    assert part + "" == part && part[..|part|] == part;
  }

  lemma EmptyLastIsLost(parts: seq<string>, sep: char)
    requires parts != [] && parts[|parts|-1] == ""
    ensures var s := Joined(parts, sep); s == "" || s[|s|-1] == sep
  {
    JoinedSnoc(parts[..|parts|-1], "", sep);
    assert parts == parts[..|parts|-1] + [""];
  }

  /** split undoes join exactly when no part holds the separator and the last is not empty. */
  lemma SplitOfJoin(parts: seq<string>, sep: char)
    ensures Pieces(Joined(parts, sep), sep, 0, 0) == parts <==>
            (forall p :: p in parts ==> sep !in p) && (parts == [] || parts[|parts|-1] != "")
  {
    var s := Joined(parts, sep);
    if (forall p :: p in parts ==> sep !in p) && (parts == [] || parts[|parts|-1] != "") {
      SplitUndoesJoin(parts, sep);
    } else {
      PiecesAreClean(s, sep, 0);
      JoinOfSplit(s, sep, 0);
      if parts != [] && parts[|parts|-1] == "" {
        EmptyLastIsLost(parts, sep);
      }
    }
  }

  // ---------------------------------------------------------------- how many pieces

  /** A string gives no piece only if it is empty, and a negative count leaves it whole. */
  lemma EdgeCases(s: string, sep: char, count: int)
    ensures Pieces(s, sep, count, 0) == [] <==> s == ""
    ensures count < 0 && s != "" ==> Pieces(s, sep, count, 0) == [s]
  {
  }

  /**
    A positive count allows one piece more than itself, the last one alone may hold separators,
    and then there are as many pieces as that.
   */
  lemma {:induction false} CountLimits(s: string, sep: char, count: int, cuts: nat)
    requires cuts <= count && count > 0
    ensures var p := Pieces(s, sep, count, cuts);
            && |p| <= count - cuts + 1
            && (forall i :: 0 <= i < |p| && sep in p[i] ==> i == count - cuts)
    decreases |s|
  {
    hide First, Pieces;
    if s != "" && cuts < count {
      var e := First(s, sep);
      OneCut(s, sep, count, cuts);
      if e < |s| {
        CountLimits(s[e+1..], sep, count, cuts + 1);
      }
    } else {
      LastPiece(s, sep, count, cuts);
    }
  }

  /** A first piece, free of separators, and those of what is left. */
  lemma OneCut(s: string, sep: char, count: int, cuts: nat)
    requires s != "" && MayCut(count, cuts)
    ensures var e := First(s, sep);
            && sep !in s[..e]
            && Pieces(s, sep, count, cuts) ==
               [s[..e]] + if e == |s| then [] else Pieces(s[e+1..], sep, count, cuts + 1)
  {
  }
}
