/** `handleDELETEChirpByID`: a chirp is removed only by its author. */
module ChirpDelete {
  import opened GoTypes
  import opened GoStrconv
  import opened Chirps
  import Subject

  /** The stored chirps, by id. */
  type ChirpStore = map<int, Chirp>

  /** How a delete request ends. `Missing` is the handler returning without
      writing a status, which Go answers with 200. `Fatal` is `log.Fatal`
      ending the process; `Panicked` is a run-time panic, which `net/http`
      recovers by dropping that one request while the process goes on. */
  datatype Outcome = Deleted | NotOwner | Missing | Unauthenticated | Fatal | Panicked

  function StatusCode(o: Outcome): (code: int)
    requires !o.Fatal? && !o.Panicked?
    ensures code == 204 <==> o.Deleted?
    ensures code == 403 <==> o.NotOwner? || o.Unauthenticated?
    ensures code == 200 <==> o.Missing?
  {
    match o
    case Deleted => 204
    case NotOwner => 403
    case Unauthenticated => 403
    case Missing => 200
  }

  datatype Deletion = Deletion(outcome: Outcome, store: ChirpStore)

  /** The ownership rule: look the chirp up, refuse a requester who is not
      its author, and otherwise remove it. */
  function DeleteChirp(store: ChirpStore, chirpId: int, userId: int): (r: Deletion)
    ensures r.outcome.Deleted? <==> chirpId in store && store[chirpId].authorId == userId
    ensures r.outcome.Missing? <==> chirpId !in store
    ensures r.outcome.NotOwner? <==> chirpId in store && store[chirpId].authorId != userId
    ensures r.store == if r.outcome.Deleted? then store - {chirpId} else store
  {
    if chirpId !in store then Deletion(Missing, store)
    else if store[chirpId].authorId != userId then Deletion(NotOwner, store)
    else Deletion(Deleted, store - {chirpId})
  }

  /** A request never touches any chirp other than the one named, and a
      chirp survives every request not made by its author. */
  lemma DeleteOnlyByAuthor(store: ChirpStore, chirpId: int, userId: int, id: int)
    requires id in store
    requires id != chirpId || store[id].authorId != userId
    ensures id in DeleteChirp(store, chirpId, userId).store
    ensures DeleteChirp(store, chirpId, userId).store[id] == store[id]
  {
  }

  /** The whole handler past authentication, as written: the requester is
      the first byte of the token subject, and the chirp id comes from the
      path, where a malformed id ends the process (`log.Fatal`). An empty
      subject makes the indexing panic, so the request ends without an
      answer (`Panicked`). Past both, the ownership rule decides, so a
      non-owner gets 403 and a missing chirp 200. */
  function HandleDeleteAsWritten(store: ChirpStore, subject: Bytes, pathId: Bytes): (r: Deletion)
    ensures r.outcome.Panicked? <==> subject == []
    ensures r.outcome.Fatal? <==> subject != [] && Atoi(pathId).None?
    ensures subject != [] && Atoi(pathId).Some? ==>
      r == DeleteChirp(store, Atoi(pathId).value, subject[0] as int)
    ensures r.store == store || r.outcome.Deleted?
    ensures r.outcome.Deleted? <==>
      && subject != []
      && Atoi(pathId).Some?
      && Atoi(pathId).value in store
      && store[Atoi(pathId).value].authorId == subject[0] as int
    ensures r.outcome.Deleted? ==> r.store == store - {Atoi(pathId).value}
  {
    match Subject.DecodeSubjectAsWritten(subject)
    case None => Deletion(Panicked, store)
    case Some(userId) =>
      match Atoi(pathId)
      case None => Deletion(Fatal, store)
      case Some(chirpId) => DeleteChirp(store, chirpId, userId)
  }

  /** As written, an author whose id is below 128 deletes their chirp with
      the token issued for them. */
  lemma AsWrittenSmallAuthorCanDelete(store: ChirpStore, chirpId: int)
    requires chirpId in store && IsInt64(chirpId) && 0 <= store[chirpId].authorId < 0x80
    ensures HandleDeleteAsWritten(store, Subject.EncodeSubjectAsWritten(store[chirpId].authorId), Itoa(chirpId))
      == Deletion(Deleted, store - {chirpId})
  {
    AtoiItoa(chirpId);
  }

  /** As written, the token of user 128 deletes the chirps of user 194 and
      is refused on user 128's own chirps. */
  lemma AsWrittenUser128ActsAs194(store: ChirpStore, chirpId: int)
    requires chirpId in store && IsInt64(chirpId)
    ensures store[chirpId].authorId == 194 ==>
      HandleDeleteAsWritten(store, Subject.EncodeSubjectAsWritten(128), Itoa(chirpId))
        == Deletion(Deleted, store - {chirpId})
    ensures store[chirpId].authorId == 128 ==>
      HandleDeleteAsWritten(store, Subject.EncodeSubjectAsWritten(128), Itoa(chirpId))
        == Deletion(NotOwner, store)
  {
    AtoiItoa(chirpId);
    Subject.AsWrittenLosesId128();
  }

  /** The whole handler past authentication with the corrected subject: the
      requester comes from the token subject, read with the decimal decoding (an unreadable
      subject is refused like a failed authentication), and the chirp id
      from the path, where a malformed id ends the process (`log.Fatal`). */
  function HandleDelete(store: ChirpStore, subject: Bytes, pathId: Bytes): (r: Deletion)
    ensures Subject.DecodeSubject(subject).None? ==> r == Deletion(Unauthenticated, store)
    ensures r.outcome.Fatal? <==> Subject.DecodeSubject(subject).Some? && Atoi(pathId).None?
    ensures Subject.DecodeSubject(subject).Some? && Atoi(pathId).Some? ==>
      r == DeleteChirp(store, Atoi(pathId).value, Subject.DecodeSubject(subject).value)
    ensures r.store == store || r.outcome.Deleted?
    ensures r.outcome.Deleted? ==>
      && Subject.DecodeSubject(subject).Some?
      && Atoi(pathId).Some?
      && Atoi(pathId).value in store
      && store[Atoi(pathId).value].authorId == Subject.DecodeSubject(subject).value
      && r.store == store - {Atoi(pathId).value}
  {
    match Subject.DecodeSubject(subject)
    case None => Deletion(Unauthenticated, store)
    case Some(userId) =>
      match Atoi(pathId)
      case None => Deletion(Fatal, store)
      case Some(chirpId) => DeleteChirp(store, chirpId, userId)
  }

  /** The author of a chirp, presenting a token issued for them, deletes it. */
  lemma AuthorCanDelete(store: ChirpStore, chirpId: int)
    requires chirpId in store && IsInt64(chirpId) && IsInt64(store[chirpId].authorId)
    ensures HandleDelete(store, Subject.EncodeSubject(store[chirpId].authorId), Itoa(chirpId))
      == Deletion(Deleted, store - {chirpId})
  {
    Subject.SubjectRoundTrip(store[chirpId].authorId);
    AtoiItoa(chirpId);
  }
}
