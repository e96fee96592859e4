/** The registration side of the front end: the one-time password drawn
    for the gesture video, the username availability rule, and the guard of
    the second registration step. The random source, the file system and
    the page widgets are not modelled: the random draws, whether the user's
    folder and record exist, and the values typed into the form are
    inputs. */
module Registration {
  import opened Options
  import opened OtpValidation

  // ---------------------------------------------------------------------
  // generate_otp

  /** The characters the one-time password is drawn from. */
  const Alphabet: string := "12345"

  /** The length of the one-time password. */
  const OtpLength: nat := 4

  /** The first occurrences of `s`, in order. */
  function FirstOccurrences(s: string): (r: string)
    ensures Distinct(r)
    ensures |r| <= |s|
  {
    if s == [] then []
    else
      var r := FirstOccurrences(s[..|s| - 1]);
      if s[|s| - 1] in r then r else r + [s[|s| - 1]]
  }

  /** Exactly the values drawn are kept. */
  lemma {:induction false} FirstOccurrencesMembers(s: string)
    ensures forall c :: c in FirstOccurrences(s) <==> c in s
  {
    if s != [] {
      var p := s[..|s| - 1];
      FirstOccurrencesMembers(p);
      assert s == p + [s[|s| - 1]];
    }
  }

  /** A draw already kept is discarded: it leaves the kept digits
      unchanged. A new draw is appended. */
  lemma RepeatedDrawDiscarded(s: string, c: char)
    ensures c in s ==> FirstOccurrences(s + [c]) == FirstOccurrences(s)
    ensures c !in s ==> FirstOccurrences(s + [c]) == FirstOccurrences(s) + [c]
  {
    assert (s + [c])[..|s|] == s;
    FirstOccurrencesMembers(s);
  }

  /** More draws only extend the digits kept so far. */
  lemma {:induction false} FirstOccurrencesPrefix(s: string, t: string)
    ensures |FirstOccurrences(s)| <= |FirstOccurrences(s + t)|
    ensures FirstOccurrences(s + t)[..|FirstOccurrences(s)|] == FirstOccurrences(s)
    decreases |t|
  {
    if t == [] {
      assert s + t == s;
    } else {
      var u := s + t[..|t| - 1];
      FirstOccurrencesPrefix(s, t[..|t| - 1]);
      assert s + t == u + [t[|t| - 1]];
      RepeatedDrawDiscarded(u, t[|t| - 1]);
    }
  }

  /** The password the draws give: their first four distinct values, in
      draw order, or None when the draws run out before four distinct
      values have come up. */
  function OtpFrom(draws: string): (otp: Option<string>)
    ensures otp.Some? ==> |otp.value| == OtpLength && Distinct(otp.value)
    ensures otp.None? <==> |FirstOccurrences(draws)| < OtpLength
  {
    var kept := FirstOccurrences(draws);
    if |kept| >= OtpLength then Some(kept[..OtpLength]) else None
  }

  /** One more draw: kept when new, discarded when already kept. */
  lemma DrawStep(draws: string, i: nat)
    requires i < |draws|
    ensures draws[i] in FirstOccurrences(draws[..i]) ==>
      FirstOccurrences(draws[..i + 1]) == FirstOccurrences(draws[..i])
    ensures draws[i] !in FirstOccurrences(draws[..i]) ==>
      FirstOccurrences(draws[..i + 1]) == FirstOccurrences(draws[..i]) + [draws[i]]
  {
    assert draws[..i + 1] == draws[..i] + [draws[i]];
    assert draws[..i + 1][..i] == draws[..i];
  }

  /** Once the first `i` draws hold four distinct values, the later draws
      do not matter. */
  lemma StopAtFour(draws: string, i: nat)
    requires i <= |draws|
    requires |FirstOccurrences(draws[..i])| == OtpLength
    ensures OtpFrom(draws) == Some(FirstOccurrences(draws[..i]))
  {
    FirstOccurrencesPrefix(draws[..i], draws[i..]);
    assert draws[..i] + draws[i..] == draws;
  }

  /** `generate_otp`: `draws` are the successive results of
      `secrets.choice("12345")`. The loop keeps a draw only when it is not
      yet among the digits; the result is None when the draws run out. */
  method GenerateOtp(draws: string) returns (otp: Option<string>)
    requires forall i :: 0 <= i < |draws| ==> draws[i] in Alphabet
    ensures otp == OtpFrom(draws)
  {
    if |draws| == 0 {
      return None;
    }
    var digits := [draws[0]];
    var i := 1;
    DrawStep(draws, 0);
    assert draws[..0] == [];
    while |digits| < OtpLength
      invariant 1 <= i <= |draws|
      invariant digits == FirstOccurrences(draws[..i])
      invariant 1 <= |digits| <= OtpLength
      decreases |draws| - i
    {
      if i == |draws| {
        assert draws[..i] == draws;
        return None;
      }
      var next := draws[i];
      DrawStep(draws, i);
      if next !in digits {
        digits := digits + [next];
      }
      i := i + 1;
    }
    StopAtFour(draws, i);
    otp := Some(digits);
  }

  /** Every password drawn has four pairwise distinct digits from "12345";
      in particular no two consecutive digits are the same. */
  lemma GeneratedOtpWellFormed(draws: string)
    requires forall i :: 0 <= i < |draws| ==> draws[i] in Alphabet
    requires OtpFrom(draws).Some?
    ensures |OtpFrom(draws).value| == OtpLength
    ensures forall i :: 0 <= i < OtpLength ==> OtpFrom(draws).value[i] in Alphabet
    ensures Distinct(OtpFrom(draws).value)
    ensures forall i :: 0 <= i < OtpLength - 1 ==> OtpFrom(draws).value[i] != OtpFrom(draws).value[i + 1]
  {
    var kept := FirstOccurrences(draws);
    var otp := kept[..OtpLength];
    FirstOccurrencesMembers(draws);
    forall i | 0 <= i < OtpLength
      ensures otp[i] in Alphabet
    {
      assert otp[i] == kept[i];
      assert kept[i] in draws;
    }
  }

  /** Draws that never repeat give a password as soon as there are four of
      them: the first four draws. */
  lemma FourDistinctDrawsSuffice(draws: string)
    requires Distinct(draws) && |draws| >= OtpLength
    ensures OtpFrom(draws) == Some(draws[..OtpLength])
  {
    DistinctKeptWhole(draws);
  }

  lemma {:induction false} DistinctKeptWhole(s: string)
    requires Distinct(s)
    ensures FirstOccurrences(s) == s
  {
    if s != [] {
      var p := s[..|s| - 1];
      DistinctKeptWhole(p);
      assert s[|s| - 1] !in p by {
        forall j | 0 <= j < |p|
          ensures p[j] != s[|s| - 1]
        {
          assert p[j] == s[j];
        }
      }
      assert s == p + [s[|s| - 1]];
    }
  }

  /** Showing the generated password to the camera one digit at a time, in
      order, passes the validator. */
  lemma GeneratedOtpShownInOrderPasses(draws: string)
    requires forall i :: 0 <= i < |draws| ==> draws[i] in Alphabet
    requires OtpFrom(draws).Some?
    ensures forall i :: 0 <= i < |OtpFrom(draws).value| ==> '0' <= OtpFrom(draws).value[i] <= '9'
    ensures IsValidOtp(Values(OtpFrom(draws).value), OtpFrom(draws).value)
  {
    GeneratedOtpWellFormed(draws);
    var otp := OtpFrom(draws).value;
    forall i | 0 <= i < |otp|
      ensures '0' <= otp[i] <= '9'
    {
      assert otp[i] in Alphabet;
    }
    ShowingOtpInOrderPasses(otp);
  }

  // ---------------------------------------------------------------------
  // check_username_availability

  /** `check_username_availability`: `folderExists` and `recordExists` say
      whether the user's folder and its `user_info.yaml` exist, and
      `regComplete` is the truth value of the record's `reg_complete` (None
      when the key is missing, which `get` reads as False). A name is taken
      only by a completed registration. */
  function UsernameAvailable(folderExists: bool, recordExists: bool, regComplete: Option<bool>): (available: bool)
    ensures !available <==> folderExists && recordExists && regComplete == Some(true)
  {
    if folderExists && recordExists then
      var registered := if regComplete.Some? then regComplete.value else false;
      !registered
    else true
  }

  // ---------------------------------------------------------------------
  // save_reg_info

  /** The record written to `user_info.yaml` by the second step. The
      password is stored as given to `hash_password`. */
  datatype UserRecord = UserRecord(
    fullName: string, username: string, phone: string, dob: string,
    password: string, regComplete: bool)

  /** The guard of the second step's "Next" button: phone, date of birth
      and password filled in, and the password confirmed. */
  predicate CanAdvance(phone: string, dob: Option<string>, password: string, confirmPassword: string) {
    phone != [] && dob.Some? && password != [] && password == confirmPassword
  }

  /** The registration state the page keeps between interactions. */
  class RegistrationSession {
    var step: int
    var username: string
    var fullName: string
    var phone: string
    var dob: Option<string>
    var password: string
    var confirmPassword: string
    var saved: Option<UserRecord>

    constructor(username: string)
      ensures this.username == username && step == 1
      ensures fullName == [] && phone == [] && dob.None? && password == [] && confirmPassword == []
      ensures saved.None?
    {
      this.username := username;
      step := 1;
      fullName := [];
      phone := [];
      dob := None;
      password := [];
      confirmPassword := [];
      saved := None;
    }

    /** The second step's "Next" button: with every field filled in and the
        password confirmed, the record is written with `reg_complete` false
        and the page moves to the video step; otherwise nothing changes. */
    method SaveRegInfo()
      requires step == 2
      modifies this
      ensures CanAdvance(phone, dob, password, confirmPassword) ==>
        step == 3 &&
        saved == Some(UserRecord(fullName, username, phone, dob.value, password, false))
      ensures !CanAdvance(phone, dob, password, confirmPassword) ==>
        step == 2 && saved == old(saved)
      ensures username == old(username) && fullName == old(fullName) && phone == old(phone)
      ensures dob == old(dob) && password == old(password) && confirmPassword == old(confirmPassword)
    {
      if !(phone != [] && dob.Some? && password != []) {
        return;
      }
      if password != confirmPassword {
        return;
      }
      saved := Some(UserRecord(fullName, username, phone, dob.value, password, false));
      step := 3;
    }
  }

  /** A user who completes the second step but not the video step has a
      record with `reg_complete` false, so the username stays available. */
  lemma IncompleteRegistrationKeepsNameAvailable(r: UserRecord)
    requires !r.regComplete
    ensures UsernameAvailable(true, true, Some(r.regComplete))
  {
  }
}
