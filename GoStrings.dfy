/** The three functions of Go's `strings` package that the chirp handlers
    use: `ToLower`, `Split(s, " ")` and `Join(ws, " ")`, on byte strings. */
module GoStrings {
  import opened GoTypes

  /** The separator the handlers split and join on: a single ASCII space. */
  const Space: byte := 32

  function LowerByte(b: byte): (r: byte)
    ensures 65 <= b <= 90 ==> r as int == b as int + 32
    ensures !(65 <= b <= 90) ==> r == b
  {
    if 65 <= b <= 90 then b + 32 else b
  }

  /** `strings.ToLower` restricted to ASCII: upper-case letters become
      lower-case, every other byte is kept. */
  function Lower(w: Bytes): (r: Bytes)
    ensures |r| == |w|
    ensures forall i :: 0 <= i < |w| ==> r[i] == LowerByte(w[i])
  {
    seq(|w|, i requires 0 <= i < |w| => LowerByte(w[i]))
  }

  /** `strings.Split(s, " ")`: the pieces between the spaces of `s`, in order.
      There is always one more piece than there are spaces, so the empty
      string gives one empty piece and adjacent spaces give empty pieces. */
  function Split(s: Bytes): (r: seq<Bytes>)
    ensures |r| >= 1
    ensures forall i :: 0 <= i < |r| ==> Space !in r[i]
  {
    if |s| == 0 then [[]]
    else
      var rest := Split(s[1..]);
      if s[0] == Space then [[]] + rest
      else [[s[0]] + rest[0]] + rest[1..]
  }

  /** `strings.Join(ws, " ")`: the pieces with one space between neighbours.
      No pieces give the empty string, one piece is returned as it is, and
      otherwise the result starts with the first piece and a space. */
  function Join(ws: seq<Bytes>): (r: Bytes)
    ensures |ws| == 0 ==> r == []
    ensures |ws| == 1 ==> r == ws[0]
    ensures |ws| >= 1 ==> ws[0] <= r
  {
    if |ws| == 0 then [] else ws[0] + SpaceBefore(ws[1..])
  }

  /** Each piece of `ws` preceded by a space, all concatenated. */
  function SpaceBefore(ws: seq<Bytes>): Bytes
  {
    if |ws| == 0 then [] else [Space] + ws[0] + SpaceBefore(ws[1..])
  }
}

/** What the handlers rely on about `Split` and `Join`: they undo each other. */
module SplitJoinLaws {
  import opened GoTypes
  import opened GoStrings

  /** `Split` yields one more piece than its argument has spaces. */
  lemma {:induction false} SplitCount(s: Bytes)
    ensures |Split(s)| == multiset(s)[Space] + 1
  {
    if |s| > 0 {
      SplitCount(s[1..]);
      assert s == [s[0]] + s[1..];
    }
  }

  lemma JoinCons(w: Bytes, ws: seq<Bytes>)
    requires |ws| >= 1
    ensures Join([w] + ws) == w + [Space] + Join(ws)
  {
    assert ([w] + ws)[1..] == ws;
  }

  lemma JoinExtendFirst(c: byte, rest: seq<Bytes>)
    requires |rest| >= 1
    ensures Join([[c] + rest[0]] + rest[1..]) == [c] + Join(rest)
  {
    var ws := [[c] + rest[0]] + rest[1..];
    var tail := SpaceBefore(rest[1..]);
    assert ws[0] == [c] + rest[0] && ws[1..] == rest[1..];
    assert Join(ws) == ([c] + rest[0]) + tail;
    assert Join(rest) == rest[0] + tail;
    assert ([c] + rest[0]) + tail == [c] + (rest[0] + tail);
  }

  /** Splitting on spaces and joining with spaces gives the string back. */
  lemma {:induction false} JoinSplit(s: Bytes)
    ensures Join(Split(s)) == s
  {
    if |s| > 0 {
      var rest := Split(s[1..]);
      JoinSplit(s[1..]);
      if s[0] == Space {
        JoinCons([], rest);
      } else {
        JoinExtendFirst(s[0], rest);
      }
      assert [s[0]] + s[1..] == s;
    }
  }

  lemma {:induction false} SplitWithoutSpace(w: Bytes)
    requires Space !in w
    ensures Split(w) == [w]
  {
    if |w| > 0 {
      SplitWithoutSpace(w[1..]);
      assert [w[0]] + w[1..] == w;
    }
  }

  lemma {:induction false} SplitFirstWord(w: Bytes, t: Bytes)
    requires Space !in w
    ensures Split(w + [Space] + t) == [w] + Split(t)
  {
    var s := w + [Space] + t;
    if |w| == 0 {
      assert s[1..] == t;
    } else {
      assert s[1..] == w[1..] + [Space] + t;
      SplitFirstWord(w[1..], t);
      assert [w[0]] + w[1..] == w;
    }
  }

  /** Joining pieces that hold no space and splitting again gives the pieces
      back: `Split` recovers every word that `Join` was given. */
  lemma {:induction false} SplitJoin(ws: seq<Bytes>)
    requires |ws| >= 1
    requires forall i :: 0 <= i < |ws| ==> Space !in ws[i]
    ensures Split(Join(ws)) == ws
  {
    if |ws| == 1 {
      assert ws[1..] == [] && ws == [ws[0]];
      assert Join(ws) == ws[0];
      SplitWithoutSpace(ws[0]);
    } else {
      SplitJoin(ws[1..]);
      assert [ws[0]] + ws[1..] == ws;
      JoinCons(ws[0], ws[1..]);
      SplitFirstWord(ws[0], Join(ws[1..]));
    }
  }

  /** Joining pieces that are each no longer than their counterparts gives a
      string no longer than the join of the counterparts. */
  lemma {:induction false} JoinNoLonger(vs: seq<Bytes>, ws: seq<Bytes>)
    requires |vs| == |ws|
    requires forall i :: 0 <= i < |ws| ==> |vs[i]| <= |ws[i]|
    ensures |Join(vs)| <= |Join(ws)|
  {
    if |ws| > 1 {
      JoinNoLonger(vs[1..], ws[1..]);
    }
  }
}
