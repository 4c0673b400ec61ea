/** `handleGETChirps`: the optional `author_id` filter followed by ordering
    on chirp id, ascending unless `sort=desc` is asked for. */
module ChirpListing {
  import opened GoTypes
  import opened GoStrconv
  import opened Chirps

  datatype SortOrder = Asc | Desc

  /** The `sort` query parameter: exactly `desc` selects descending order;
      anything else, absent included, leaves the default ascending. */
  function OrderOf(sortParam: Bytes): (o: SortOrder)
    ensures o == Desc <==> sortParam == Lit("desc")
  {
    if sortParam == Lit("desc") then Desc else Asc
  }

  /** The `author_id` query parameter: empty means no filter, otherwise it
      must parse with `strconv.Atoi`, and a parse error ends the process
      (`log.Fatal`). */
  datatype AuthorFilter = Everyone | Author(id: int) | Malformed

  function FilterOf(authorParam: Bytes): (f: AuthorFilter)
    ensures f.Everyone? <==> authorParam == []
    ensures f.Malformed? <==> authorParam != [] && Atoi(authorParam).None?
    ensures f.Author? ==> Atoi(authorParam) == Some(f.id)
  {
    if authorParam == [] then Everyone
    else match Atoi(authorParam)
      case None => Malformed
      case Some(id) => Author(id)
  }

  /** The chirps of `chirps` written by `author`, in their original order. */
  function ByAuthor(chirps: seq<Chirp>, author: int): (r: seq<Chirp>)
    ensures |r| <= |chirps|
    ensures forall c :: c in r <==> c in chirps && c.authorId == author
  {
    if chirps == [] then []
    else
      var last := chirps[|chirps| - 1];
      var init := chirps[..|chirps| - 1];
      assert chirps == init + [last];
      ByAuthor(init, author) + if last.authorId == author then [last] else []
  }

  /** The filter keeps every copy of a matching chirp and no copy of any
      other: as multisets, the result is the input restricted to `author`. */
  lemma {:induction false} ByAuthorCounts(chirps: seq<Chirp>, author: int, c: Chirp)
    ensures multiset(ByAuthor(chirps, author))[c] ==
      if c.authorId == author then multiset(chirps)[c] else 0
  {
    if chirps != [] {
      var init := chirps[..|chirps| - 1];
      assert chirps == init + [chirps[|chirps| - 1]];
      ByAuthorCounts(init, author, c);
    }
  }

  /** The chirps the listing returns, before ordering. */
  function Selected(chirps: seq<Chirp>, f: AuthorFilter): seq<Chirp>
    requires !f.Malformed?
  {
    if f.Everyone? then chirps else ByAuthor(chirps, f.id)
  }

  predicate InOrder(x: Chirp, y: Chirp, o: SortOrder) {
    if o == Asc then x.id <= y.id else x.id >= y.id
  }

  /** Ids are non-decreasing (ascending) or non-increasing (descending). */
  predicate Sorted(s: seq<Chirp>, o: SortOrder) {
    forall i, j :: 0 <= i < j < |s| ==> InOrder(s[i], s[j], o)
  }

  /** The filtering loop: append each chirp whose author matches. */
  method FilterByAuthor(chirps: seq<Chirp>, author: int) returns (newChirps: seq<Chirp>)
    ensures newChirps == ByAuthor(chirps, author)
  {
    newChirps := [];
    for i := 0 to |chirps|
      invariant newChirps == ByAuthor(chirps[..i], author)
    {
      assert chirps[..i + 1][..i] == chirps[..i];
      if chirps[i].authorId == author {
        newChirps := newChirps + [chirps[i]];
      }
    }
    assert chirps[..|chirps|] == chirps;
  }

  /** Exchanges two neighbouring chirps. */
  method SwapDown(a: array<Chirp>, j: int)
    requires 0 < j < a.Length
    modifies a
    ensures a[j - 1] == old(a[j]) && a[j] == old(a[j - 1])
    ensures forall k :: 0 <= k < a.Length && k != j - 1 && k != j ==> a[k] == old(a[k])
    ensures multiset(a[..]) == old(multiset(a[..]))
  {
    a[j - 1], a[j] := a[j], a[j - 1];
  }

  /** One step of the sort: moves `a[i]` down into the ordered prefix
      `a[..i]`, so that `a[..i + 1]` is ordered. */
  method InsertStep(a: array<Chirp>, i: int, o: SortOrder)
    requires 0 <= i < a.Length
    requires forall k, l :: 0 <= k < l < i ==> InOrder(a[k], a[l], o)
    modifies a
    ensures forall k, l :: 0 <= k < l <= i ==> InOrder(a[k], a[l], o)
    ensures multiset(a[..]) == old(multiset(a[..]))
  {
    var j := i;
    while j > 0 && !InOrder(a[j - 1], a[j], o)
      invariant 0 <= j <= i
      invariant forall k, l :: 0 <= k < l <= i && k != j && l != j ==> InOrder(a[k], a[l], o)
      invariant forall l :: j < l <= i ==> InOrder(a[j], a[l], o)
      invariant multiset(a[..]) == old(multiset(a[..]))
    {
      SwapDown(a, j);
      j := j - 1;
    }
  }

  /** `sort.Slice` with the comparator of the chosen order: the array ends up
      ordered by id and holds the same chirps as before. Go's sort is not
      stable, so among chirps with equal ids no order is promised. */
  method SortChirps(a: array<Chirp>, o: SortOrder)
    modifies a
    ensures Sorted(a[..], o)
    ensures multiset(a[..]) == old(multiset(a[..]))
  {
    for i := 0 to a.Length
      invariant forall k, l :: 0 <= k < l < i ==> InOrder(a[k], a[l], o)
      invariant multiset(a[..]) == old(multiset(a[..]))
    {
      InsertStep(a, i, o);
    }
  }

  /** The outcome of `handleGETChirps`: the listed chirps, or the process
      ending on a malformed `author_id`. */
  datatype Listing = Listed(chirps: seq<Chirp>) | Fatal

  /** `handleGETChirps` over the chirps the store returned: the result holds
      exactly the selected chirps, each as often as in the store, ordered by
      id in the requested direction. */
  method ListChirps(chirps: seq<Chirp>, authorParam: Bytes, sortParam: Bytes) returns (r: Listing)
    ensures r.Fatal? <==> FilterOf(authorParam).Malformed?
    ensures r.Listed? ==> multiset(r.chirps) == multiset(Selected(chirps, FilterOf(authorParam)))
    ensures r.Listed? ==> Sorted(r.chirps, OrderOf(sortParam))
  {
    var order := OrderOf(sortParam);
    var selected := chirps;
    var filter := FilterOf(authorParam);
    match filter {
      case Malformed =>
        return Fatal;
      case Author(id) =>
        selected := FilterByAuthor(chirps, id);
      case Everyone =>
    }
    var a := new Chirp[|selected|](i requires 0 <= i < |selected| => selected[i]);
    assert a[..] == selected;
    SortChirps(a, order);
    return Listed(a[..]);
  }

  /** With an author filter, a chirp appears in the listing exactly when it
      is in the store and that author wrote it. */
  lemma ListedByAuthor(chirps: seq<Chirp>, author: int, listed: seq<Chirp>, c: Chirp)
    requires multiset(listed) == multiset(Selected(chirps, Author(author)))
    ensures c in listed <==> c in chirps && c.authorId == author
  {
    assert c in listed <==> c in multiset(listed);
    assert c in ByAuthor(chirps, author) <==> c in multiset(ByAuthor(chirps, author));
  }
}
