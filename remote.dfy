/** The response acceptance rule shared by every call of both scripts: a reply
    is trusted only when its status is 200 AND its body does not carry the
    embedded error marker `errorCode`. */
module Remote {

  /** What the scripts read from an HTTP reply before decoding it. */
  datatype Response = Response(status: int, text: string)

  const OkStatus: int := 200
  const ErrorMarker: string := "errorCode"

  /** `pat` occurs in `text` starting at position `i`. */
  predicate OccursAt(text: string, pat: string, i: int) {
    0 <= i && i + |pat| <= |text| && text[i..i + |pat|] == pat
  }

  /** Python's substring test `pat in text`, scanning from the left. */
  predicate Contains(text: string, pat: string)
    decreases |text|
  {
    if |pat| > |text| then false
    else text[..|pat|] == pat || Contains(text[1..], pat)
  }

  /** `Contains` holds exactly when some position starts an occurrence. */
  lemma {:induction false} ContainsIffOccurs(text: string, pat: string)
    ensures Contains(text, pat) <==> exists i :: OccursAt(text, pat, i)
    decreases |text|
  {
    if |pat| <= |text| {
      if text[..|pat|] == pat {
        assert OccursAt(text, pat, 0);
      } else {
        ContainsIffOccurs(text[1..], pat);
        if Contains(text[1..], pat) {
          var i :| OccursAt(text[1..], pat, i);
          assert text[1..][i..i + |pat|] == text[i + 1..i + 1 + |pat|];
          assert OccursAt(text, pat, i + 1);
        }
        if exists i :: OccursAt(text, pat, i) {
          var i :| OccursAt(text, pat, i);
          assert i != 0;
          assert text[1..][i - 1..i - 1 + |pat|] == text[i..i + |pat|];
          assert OccursAt(text[1..], pat, i - 1);
        }
      }
    } else {
      assert forall i :: !OccursAt(text, pat, i);
    }
  }

  /** The acceptance test written out at each call site of both scripts. */
  predicate Accepted(r: Response) {
    r.status == OkStatus && !Contains(r.text, ErrorMarker)
  }

  /** A reply is accepted iff its status is 200 and no position of its body
      starts the marker `errorCode`; a 200 reply carrying the marker and every
      non-200 reply are rejected. */
  lemma AcceptedIff(r: Response)
    ensures Accepted(r) <==> r.status == 200 && forall i :: !OccursAt(r.text, "errorCode", i)
  {
    ContainsIffOccurs(r.text, ErrorMarker);
  }
}
