/** Chirps and the checks `handlePOSTChirp` applies to a new chirp body:
    the length gate on the raw body, then the profanity filter. */
module Chirps {
  import opened GoTypes
  import opened GoStrings
  import opened Censor

  /** A stored chirp as the handlers use it: id, author id and body. */
  datatype Chirp = Chirp(id: int, authorId: int, body: Bytes)

  /** The most bytes a chirp body may have. */
  const BodyLimit: nat := 140

  /** What `handlePOSTChirp` does with a decoded body: answer 400 "Chirp is
      too long", or go on with the censored body. */
  datatype BodyCheck = TooLong | Accepted(cleaned: Bytes)

  /** The length gate on the raw body, then the profanity filter with the
      handler's block-list. The gate counts bytes of the body as received,
      before censoring could shorten it. */
  function CheckBody(body: Bytes): (r: BodyCheck)
    ensures r.TooLong? <==> |body| > BodyLimit
    ensures r.Accepted? ==> r.cleaned == Censored(body, Profanities)
  {
    if |body| > BodyLimit then TooLong
    else Accepted(Censored(body, Profanities))
  }

  /** A body that passes the gate is stored within the limit: every word on
      the handler's block-list is longer than the mask, so censoring never
      lengthens the body. */
  lemma AcceptedBodyWithinLimit(body: Bytes)
    requires CheckBody(body).Accepted?
    ensures |CheckBody(body).cleaned| <= BodyLimit
  {
    assert |Profanities[0]| == 9 && |Profanities[1]| == 8 && |Profanities[2]| == 6;
    CensorNeverLengthens(body, Profanities);
  }

  /** A body with no blocked word that passes the gate is stored exactly as
      it was sent. */
  lemma CleanBodyStoredVerbatim(body: Bytes)
    requires |body| <= BodyLimit
    requires forall i :: 0 <= i < |Split(body)| ==> !Blocked(Split(body)[i], Profanities)
    ensures CheckBody(body) == Accepted(body)
  {
    CensorKeepsCleanBody(body, Profanities);
  }
}
