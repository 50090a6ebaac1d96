/** The input validators of helpers.js. Each JavaScript validator either returns a
    normalised (trimmed) string or throws an `Error` with a fixed message; here it
    returns `Ok(value)` or `Err(message)`. */
module Helpers {
  import opened Wrappers
  import opened JsText
  import opened EmailPattern

  /** The JavaScript values a validator can be handed: `undefined`, `null`, a string,
      or any other value (a number, an object, ...), which only `typeof` tells apart. */
  datatype JsValue = Undefined | Null | Str(s: string) | NonString

  /** `name || fallback`: the empty string is falsy, so it falls back too. */
  function OrDefault(name: string, fallback: string): string {
    if name == "" then fallback else name
  }

  function NotProvidedMsg(name: string): string {
    "Error: " + OrDefault(name, "variable") + " not provided"
  }

  function NotStringMsg(name: string): string {
    "Error: " + OrDefault(name, "provided variable") + " is not a string"
  }

  function EmptyStringMsg(name: string): string {
    "Error: " + OrDefault(name, "provided variable") + " is a empty string"
  }

  const InvalidIdMsg := "Error: Invalid object Id"
  const EmailInvalidMsg := "Error: Email address is invalid"
  const EmailFormatMsg := "Error: Invalid email format."
  const PasswordLengthMsg := "Error: Password must be at least 8 characters long."
  const PasswordUpperMsg := "Error: Password should have at least one uppercase letter."
  const PasswordDigitMsg := "Error: Password should have at least one number."
  const PasswordSpecialMsg := "Error: Password should have at least one special character."

  function NameDigitMsg(nameVar: string): string { "Error: " + nameVar + " contains a number." }
  function NameShortMsg(nameVar: string): string { "Error: " + nameVar + " should have at least 2 charaters." }
  function NameLongMsg(nameVar: string): string { "Error: " + nameVar + " should not be more than 25 charaters." }

  /** The class of the password's special-character regular expression. */
  const SpecialChars: string := "`!@#$%^&*()_+-=[]{};':\"\\|,.<>/?~"

  predicate HasSpecial(s: string) { exists i :: 0 <= i < |s| && s[i] in SpecialChars }

  /** A string input that is present, is a string and is not all whitespace. */
  predicate IsProperString(v: JsValue) { v.Str? && !AllWhitespace(v.s) }

  /** `isInputProvided`: fails exactly on `undefined` and `null`. */
  function IsInputProvided(v: JsValue, name: string): (r: Outcome)
    ensures r.Fail? <==> v.Undefined? || v.Null?
    ensures r.Fail? ==> r.msg == NotProvidedMsg(name)
  {
    if v.Undefined? || v.Null? then Fail(NotProvidedMsg(name)) else Pass
  }

  /** `checkIsProperString`: accepts exactly the strings that are not all whitespace and
      returns them trimmed; the result is non-empty and has no whitespace at either end. */
  function CheckIsProperString(v: JsValue, name: string): (r: Result<string>)
    ensures r.Ok? <==> IsProperString(v)
    ensures r.Ok? ==> IsTrimOf(v.s, r.value) && r.value != [] && NoEdgeWhitespace(r.value)
    ensures (v.Undefined? || v.Null?) ==> r == Err(NotProvidedMsg(name))
    ensures v.NonString? ==> r == Err(NotStringMsg(name))
    ensures v.Str? && AllWhitespace(v.s) ==> r == Err(EmptyStringMsg(name))
  {
    match IsInputProvided(v, name)
    case Fail(m) => Err(m)
    case Pass =>
      if !v.Str? then Err(NotStringMsg(name))
      else
        TrimEmptyIff(v.s);
        var t := Trim(v.s);
        if |t| == 0 then Err(EmptyStringMsg(name)) else Ok(t)
  }

  /** What `checkIsProperString` returns is a fixed point: checking it again returns it. */
  lemma CheckIsProperStringIdempotent(v: JsValue, name: string)
    ensures CheckIsProperString(v, name).Ok? ==>
              CheckIsProperString(Str(CheckIsProperString(v, name).value), name) == CheckIsProperString(v, name)
  {
    var r := CheckIsProperString(v, name);
    if r.Ok? {
      var t := r.value;
      TrimUnique(v.s, t);
      TrimIdempotent(v.s);
      assert Trim(t) == t;
      TrimEmptyIff(t);
      assert !AllWhitespace(t);
    }
  }

  /** `validateId`: accepts exactly the proper strings whose trimmed form the ObjectId
      validity predicate `isValid` accepts, and returns that trimmed form. */
  function ValidateId(v: JsValue, isValid: string -> bool): (r: Result<string>)
    ensures r.Ok? <==> IsProperString(v) && isValid(Trim(v.s))
    ensures r.Ok? ==> r.value == Trim(v.s)
    ensures (v.Undefined? || v.Null?) ==> r == Err(NotProvidedMsg("id"))
    ensures v.NonString? ==> r == Err(NotStringMsg("id"))
    ensures v.Str? && AllWhitespace(v.s) ==> r == Err(EmptyStringMsg("id"))
    ensures IsProperString(v) && !isValid(Trim(v.s)) ==> r == Err(InvalidIdMsg)
  {
    match IsInputProvided(v, "id")
    case Fail(m) => Err(m)
    case Pass =>
      match CheckIsProperString(v, "id")
      case Err(m) => Err(m)
      case Ok(id) =>
        TrimUnique(v.s, id);
        if !isValid(id) then Err(InvalidIdMsg) else Ok(id)
  }

  /** `validateEmail`: accepts exactly the proper strings that `isEmail` (the
      `validator.isEmail` library predicate, applied to the untrimmed input) accepts and
      whose trimmed form has the email shape, and returns that trimmed form. */
  function ValidateEmail(v: JsValue, isEmail: string -> bool): (r: Result<string>)
    ensures r.Ok? <==> IsProperString(v) && isEmail(v.s) && EmailShape(Trim(v.s))
    ensures r.Ok? ==> r.value == Trim(v.s)
    ensures (v.Undefined? || v.Null?) ==> r == Err(NotProvidedMsg("email"))
    ensures v.NonString? ==> r == Err(NotStringMsg("email"))
    ensures v.Str? && AllWhitespace(v.s) ==> r == Err(EmptyStringMsg("email"))
    ensures IsProperString(v) && !isEmail(v.s) ==> r == Err(EmailInvalidMsg)
    ensures IsProperString(v) && isEmail(v.s) && !EmailShape(Trim(v.s)) ==> r == Err(EmailFormatMsg)
  {
    match CheckIsProperString(v, "email")
    case Err(m) => Err(m)
    case Ok(_) =>
      if !isEmail(v.s) then Err(EmailInvalidMsg)
      else
        match IsInputProvided(v, "Email")
        case Fail(m) => Err(m)
        case Pass =>
          match CheckIsProperString(v, "Email")
          case Err(m) => Err(m)
          case Ok(email) =>
            TrimUnique(v.s, email);
            if !MatchesEmailRegex(email) then Err(EmailFormatMsg) else Ok(email)
  }

  /** The length and digit rules of a first or last name, on its trimmed form. */
  predicate IsProperName(t: string) {
    !HasDigit(t) && 2 <= |t| <= 25
  }

  /** `checkIsProperFirstOrLastName`: accepts exactly the strings whose trimmed form has no
      digit and 2 to 25 characters, and returns the trimmed form. The digit check comes
      first, so a trimmed name containing a digit fails with that message whatever its length. */
  function CheckIsProperFirstOrLastName(v: JsValue, nameVar: string): (r: Result<string>)
    ensures r.Ok? <==> v.Str? && IsProperName(Trim(v.s))
    ensures r.Ok? ==> r.value == Trim(v.s)
    ensures (v.Undefined? || v.Null?) ==> r == Err(NotProvidedMsg(nameVar))
    ensures v.NonString? ==> r == Err(NotStringMsg(nameVar))
    ensures v.Str? && AllWhitespace(v.s) ==> r == Err(EmptyStringMsg(nameVar))
    ensures v.Str? && HasDigit(Trim(v.s)) ==> r == Err(NameDigitMsg(nameVar))
    ensures IsProperString(v) && !HasDigit(Trim(v.s)) && |Trim(v.s)| < 2 ==> r == Err(NameShortMsg(nameVar))
    ensures v.Str? && !HasDigit(Trim(v.s)) && |Trim(v.s)| > 25 ==> r == Err(NameLongMsg(nameVar))
  {
    match IsInputProvided(v, nameVar)
    case Fail(m) => Err(m)
    case Pass =>
      match CheckIsProperString(v, nameVar)
      case Err(m) => Err(m)
      case Ok(name) =>
        TrimUnique(v.s, name);
        TrimEmptyIff(v.s);
        if HasDigit(name) then Err(NameDigitMsg(nameVar))
        else if |name| < 2 then Err(NameShortMsg(nameVar))
        else if |name| > 25 then Err(NameLongMsg(nameVar))
        else Ok(name)
  }

  /** The password rules, on its trimmed form: no space, at least 8 characters, an
      upper-case letter, a digit and a special character. */
  predicate IsStrongPassword(t: string) {
    ' ' !in t && |t| >= 8 && HasAsciiUpper(t) && HasDigit(t) && HasSpecial(t)
  }

  /** `checkIsProperPassword`: accepts exactly the strings whose trimmed form satisfies
      every password rule, and returns the trimmed form. Each failure carries the message
      of the first rule broken; a space inside the password fails with the length
      message, whatever the length. */
  function CheckIsProperPassword(v: JsValue): (r: Result<string>)
    ensures r.Ok? <==> v.Str? && IsStrongPassword(Trim(v.s))
    ensures r.Ok? ==> r.value == Trim(v.s)
    ensures (v.Undefined? || v.Null?) ==> r == Err(NotProvidedMsg("Password"))
    ensures v.NonString? ==> r == Err(NotStringMsg("Password"))
    ensures v.Str? && AllWhitespace(v.s) ==> r == Err(EmptyStringMsg("Password"))
    ensures IsProperString(v) && (' ' in Trim(v.s) || |Trim(v.s)| < 8) ==> r == Err(PasswordLengthMsg)
    ensures v.Str? ==> var t := Trim(v.s);
      (' ' !in t && |t| >= 8 && !HasAsciiUpper(t)) ==> r == Err(PasswordUpperMsg)
    ensures v.Str? ==> var t := Trim(v.s);
      (' ' !in t && |t| >= 8 && HasAsciiUpper(t) && !HasDigit(t)) ==> r == Err(PasswordDigitMsg)
    ensures v.Str? ==> var t := Trim(v.s);
      (' ' !in t && |t| >= 8 && HasAsciiUpper(t) && HasDigit(t) && !HasSpecial(t)) ==> r == Err(PasswordSpecialMsg)
  {
    match IsInputProvided(v, "Password")
    case Fail(m) => Err(m)
    case Pass =>
      match CheckIsProperString(v, "Password")
      case Err(m) => Err(m)
      case Ok(password) =>
        TrimUnique(v.s, password);
        TrimEmptyIff(v.s);
        ToLowerUnchangedIff(password);
        if ' ' in password || |password| < 8 then Err(PasswordLengthMsg)
        else if password == ToLower(password) then Err(PasswordUpperMsg)
        else if !HasDigit(password) then Err(PasswordDigitMsg)
        else if !HasSpecial(password) then Err(PasswordSpecialMsg)
        else Ok(password)
  }

  /** The digit check runs before the length checks: a one-character name that is a
      digit fails for the digit, not for being too short. */
  lemma DigitCheckPrecedesLength(nameVar: string)
    ensures CheckIsProperFirstOrLastName(Str("7"), nameVar) == Err(NameDigitMsg(nameVar))
  {
    assert !IsWhitespace("7"[0]);
    assert Trim("7") == "7";
    assert IsDigit("7"[0]);
  }

  /** A long password with an inner space fails with the length message. */
  lemma InnerSpaceFailsAsTooShort()
    ensures CheckIsProperPassword(Str("Secret Pass1!")) == Err(PasswordLengthMsg)
  {
    var p := "Secret Pass1!";
    assert !IsWhitespace(p[0]) && !IsWhitespace(p[|p| - 1]);
    assert TrimmedAt(p, p, 0);
    TrimUnique(p, p);
    assert p[6] == ' ';
  }
}
