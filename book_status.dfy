/** The `BookStatus` string enum and its validator. */
module BookStatus {
  import opened Wrappers
  import opened Text

  datatype Status = Available | Borrowed
  {
    /** The string each member stands for. */
    function Value(): string
    {
      match this
      case Available => "available"
      case Borrowed => "borrowed"
    }
  }

  /** `BookStatus.is_valid_status`: `None` and `""` are rejected outright; anything else
      is accepted when its trimmed, lower-cased form is the value of a member. */
  predicate IsValidStatus(status: Option<string>)
    ensures IsValidStatus(status) <==> status.Some? && exists m: Status :: Normalize(status.value) == m.Value()
  {
    assert Available.Value() == "available" && Borrowed.Value() == "borrowed";
    status.Some? && |status.value| > 0 && Normalize(status.value) in ["available", "borrowed"]
  }

  /** Every member's own value passes the validator. */
  lemma ValueIsValid(st: Status)
    ensures IsValidStatus(Some(st.Value()))
  {
    match st
    case Available => NormalizeLowerWord("available");
    case Borrowed => NormalizeLowerWord("borrowed");
  }

  /** Validity depends on the input only through its lower-cased form, so "AVAILABLE" and
      "available" are judged alike. */
  lemma StatusIgnoresCase(s: string, t: string)
    requires Lower(s) == Lower(t)
    ensures IsValidStatus(Some(s)) == IsValidStatus(Some(t))
  {
    NormalizeIgnoresCase(s, t);
    assert |s| == |Lower(s)|;
  }

  /** Whitespace around the input does not change the verdict. */
  lemma StatusIgnoresPadding(w1: string, s: string, w2: string)
    requires AllSpace(w1) && AllSpace(w2)
    ensures IsValidStatus(Some(w1 + s + w2)) == IsValidStatus(Some(s))
  {
    StripPadded(w1, s, w2);
  }

  /** A string of whitespace only is rejected: it is non-empty but trims to "". */
  lemma WhitespaceOnlyStatusInvalid(s: string)
    requires AllSpace(s)
    ensures !IsValidStatus(Some(s))
  {
    StripEmpty(s);
  }

  /** Accepted cases of the project's own unit test for the validator: a member's value
      as it is, in upper case, and padded with spaces. */
  lemma LowerCaseStatusAccepted()
    ensures IsValidStatus(Some("available"))
  {
    ValueIsValid(Available);
  }

  lemma UpperCaseStatusAccepted()
    ensures IsValidStatus(Some("AVAILABLE"))
  {
    var upper := "AVAILABLE";
    assert LStrip(upper) == upper && RStrip(upper) == upper;
    assert Lower(upper) == "available";
  }

  lemma PaddedStatusAccepted()
    ensures IsValidStatus(Some(" borrowed "))
  {
    ValueIsValid(Borrowed);
    PaddedLiteral();
    assert AllSpace(" ");
    StripPadded(" ", "borrowed", " ");
  }

  /** The padded literal is the member's value with one space either side. */
  lemma PaddedLiteral()
    ensures " borrowed " == " " + "borrowed" + " "
  {
  }

  /** The rejected cases of the project's own unit test for the validator. */
  lemma RejectedStatusExamples()
    ensures !IsValidStatus(Some("lost"))
    ensures !IsValidStatus(Some(""))
    ensures !IsValidStatus(Some("random"))
    ensures !IsValidStatus(None)
  {
    LostRejected();
    RandomRejected();
  }

  /** Each rejected literal is proved in a context of its own: its normal form is the
      literal itself, which is no member's value. */
  lemma LostRejected()
    ensures !IsValidStatus(Some("lost"))
  {
    NormalizeLowerWord("lost");
  }

  lemma RandomRejected()
    ensures !IsValidStatus(Some("random"))
  {
    NormalizeLowerWord("random");
  }
}
