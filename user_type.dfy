/** The `UserType` string enum and its validator. */
module UserType {
  import opened Wrappers
  import opened Text

  datatype Kind = User | Staff
  {
    /** The string each member stands for. */
    function Value(): string
    {
      match this
      case User => "user"
      case Staff => "staff"
    }
  }

  /** `UserType.is_valid_usertype`: `None` and `""` are rejected outright; anything else
      is accepted when its trimmed, lower-cased form is the value of a member. */
  predicate IsValidUserType(userType: Option<string>)
    ensures IsValidUserType(userType) <==> userType.Some? && exists m: Kind :: Normalize(userType.value) == m.Value()
  {
    assert User.Value() == "user" && Staff.Value() == "staff";
    userType.Some? && |userType.value| > 0 && Normalize(userType.value) in ["user", "staff"]
  }

  /** Every member's own value passes the validator. */
  lemma ValueIsValid(k: Kind)
    ensures IsValidUserType(Some(k.Value()))
  {
    match k
    case User => NormalizeLowerWord("user");
    case Staff => NormalizeLowerWord("staff");
  }

  /** Validity depends on the input only through its lower-cased form, so "User" and
      "user" are judged alike. */
  lemma UserTypeIgnoresCase(s: string, t: string)
    requires Lower(s) == Lower(t)
    ensures IsValidUserType(Some(s)) == IsValidUserType(Some(t))
  {
    NormalizeIgnoresCase(s, t);
    assert |s| == |Lower(s)|;
  }

  /** Whitespace around the input does not change the verdict. */
  lemma UserTypeIgnoresPadding(w1: string, s: string, w2: string)
    requires AllSpace(w1) && AllSpace(w2)
    ensures IsValidUserType(Some(w1 + s + w2)) == IsValidUserType(Some(s))
  {
    StripPadded(w1, s, w2);
  }

  /** A string of whitespace only is rejected: it is non-empty but trims to "". */
  lemma WhitespaceOnlyUserTypeInvalid(s: string)
    requires AllSpace(s)
    ensures !IsValidUserType(Some(s))
  {
    StripEmpty(s);
  }

  /** Accepted cases of the project's own unit test for the validator: a member's value
      as it is, capitalised, and padded with spaces. */
  lemma LowerCaseUserTypeAccepted()
    ensures IsValidUserType(Some("user"))
  {
    ValueIsValid(User);
  }

  lemma CapitalisedUserTypeAccepted()
    ensures IsValidUserType(Some("User"))
  {
    var capitalised := "User";
    assert LStrip(capitalised) == capitalised && RStrip(capitalised) == capitalised;
    assert Lower(capitalised) == "user";
  }

  lemma PaddedUserTypeAccepted()
    ensures IsValidUserType(Some(" staff "))
  {
    ValueIsValid(Staff);
    PaddedLiteral();
    assert AllSpace(" ");
    StripPadded(" ", "staff", " ");
  }

  /** The padded literal is the member's value with one space either side. */
  lemma PaddedLiteral()
    ensures " staff " == " " + "staff" + " "
  {
  }

  /** The rejected cases of the project's own unit test for the validator. */
  lemma RejectedUserTypeExamples()
    ensures !IsValidUserType(Some("admin"))
    ensures !IsValidUserType(Some(""))
    ensures !IsValidUserType(Some("random"))
    ensures !IsValidUserType(None)
  {
    AdminRejected();
    RandomRejected();
  }

  /** Each rejected literal is proved in a context of its own: its normal form is the
      literal itself, which is no member's value. */
  lemma AdminRejected()
    ensures !IsValidUserType(Some("admin"))
  {
    NormalizeLowerWord("admin");
  }

  lemma RandomRejected()
    ensures !IsValidUserType(Some("random"))
  {
    NormalizeLowerWord("random");
  }
}
