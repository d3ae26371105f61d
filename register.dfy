/**
 * The password rule of the sign-up form (`validatePassword` and its guard in
 * `handleSubmit`, src/pages/Register.jsx). Lengths are counted in UTF-16 code units,
 * as JavaScript's `length` does.
 */
module Register {
  import opened Wrappers
  import Text

  const MinLength := 8
  const TooShort := "Şifre en az 8 karakter olmalıdır."
  const NoUpper := "Şifre en az bir büyük harf içermelidir."
  const NoLower := "Şifre en az bir küçük harf içermelidir."
  const NoDigit := "Şifre en az bir rakam içermelidir."
  const NoSpecial := "Şifre en az bir özel karakter içermelidir."

  /** `pwd.length`: characters outside the Basic Multilingual Plane take two code units. */
  function Utf16Length(s: string): (n: nat)
    ensures n >= |s|
  {
    if s == [] then 0 else (if s[0] as int > 0xFFFF then 2 else 1) + Utf16Length(s[1..])
  }

  /** Without characters beyond the Basic Multilingual Plane the length is the number of characters. */
  lemma {:induction false} Utf16LengthBmp(s: string)
    requires forall i :: 0 <= i < |s| ==> s[i] as int <= 0xFFFF
    ensures Utf16Length(s) == |s|
  {
    if s != [] {
      Utf16LengthBmp(s[1..]);
    }
  }

  predicate HasUpper(s: string) { exists i :: 0 <= i < |s| && Text.IsAsciiUpper(s[i]) }
  predicate HasLower(s: string) { exists i :: 0 <= i < |s| && Text.IsAsciiLower(s[i]) }
  predicate HasDigit(s: string) { exists i :: 0 <= i < |s| && Text.IsDigit(s[i]) }
  /** `/\W/`: some character outside [A-Za-z0-9_]. */
  predicate HasSpecial(s: string) { exists i :: 0 <= i < |s| && !Text.IsWordChar(s[i]) }

  /** `validatePassword(pwd)`: the message of the first failing check, `None` for null. */
  function ValidatePassword(pwd: string): Option<string> {
    if Utf16Length(pwd) < MinLength then Some(TooShort)
    else if !HasUpper(pwd) then Some(NoUpper)
    else if !HasLower(pwd) then Some(NoLower)
    else if !HasDigit(pwd) then Some(NoDigit)
    else if !HasSpecial(pwd) then Some(NoSpecial)
    else None
  }

  /** A password is accepted exactly when it is long enough and has one character of each class. */
  lemma ValidIff(pwd: string)
    ensures ValidatePassword(pwd).None? <==>
      Utf16Length(pwd) >= MinLength && HasUpper(pwd) && HasLower(pwd) && HasDigit(pwd) && HasSpecial(pwd)
  {
  }

  /**
   * The checks run in order and the first failure wins: a short password always gets the
   * length message, and each later message implies that every earlier check passed.
   */
  lemma FirstFailureWins(pwd: string)
    ensures Utf16Length(pwd) < MinLength ==> ValidatePassword(pwd) == Some(TooShort)
    ensures ValidatePassword(pwd) == Some(NoUpper) <==> Utf16Length(pwd) >= MinLength && !HasUpper(pwd)
    ensures ValidatePassword(pwd) == Some(NoLower) <==>
      Utf16Length(pwd) >= MinLength && HasUpper(pwd) && !HasLower(pwd)
    ensures ValidatePassword(pwd) == Some(NoDigit) <==>
      Utf16Length(pwd) >= MinLength && HasUpper(pwd) && HasLower(pwd) && !HasDigit(pwd)
    ensures ValidatePassword(pwd) == Some(NoSpecial) <==>
      Utf16Length(pwd) >= MinLength && HasUpper(pwd) && HasLower(pwd) && HasDigit(pwd) && !HasSpecial(pwd)
  {
  }

  /** '_' is a word character, so it is not special; 'ş' is outside [A-Za-z0-9_], so it is. */
  lemma SpecialCharacterClass()
    ensures !HasSpecial("_")
    ensures HasSpecial("ş")
    ensures !HasUpper("Ş")
  {
    var s := "ş";
    assert !Text.IsWordChar(s[0]);
  }

  /** "Abcdef1_" has every letter class and a digit but fails for want of a special character. */
  lemma UnderscoreIsNotEnough()
    ensures ValidatePassword("Abcdef1_") == Some(NoSpecial)
  {
    var p := "Abcdef1_";
    assert !HasSpecial(p) by {
      forall i | 0 <= i < |p| ensures Text.IsWordChar(p[i]) {
        if i == 0 { } else if i == 1 { } else if i == 2 { } else if i == 3 { }
        else if i == 4 { } else if i == 5 { } else if i == 6 { } else { }
      }
    }
    assert HasUpper(p) && HasLower(p) && HasDigit(p) by {
      assert Text.IsAsciiUpper(p[0]) && Text.IsAsciiLower(p[1]) && Text.IsDigit(p[6]);
    }
    assert Utf16Length(p) >= MinLength by {
      Utf16LengthBmp(p);
    }
    FirstFailureWins(p);
  }

  /** "Şifre1ş!" is rejected: 'Ş' is not an upper-case letter for `/[A-Z]/`. */
  lemma TurkishCapitalIsNotUpper()
    ensures ValidatePassword("Şifre1ş!") == Some(NoUpper)
  {
    var p := "Şifre1ş!";
    assert !HasUpper(p) by {
      assert forall i :: 0 <= i < |p| ==> !Text.IsAsciiUpper(p[i]);
    }
    Utf16LengthBmp(p);
  }

  /** What the submit handler does. */
  datatype SubmitAction = ShowError(message: string) | CallRegister

  /** `handleSubmit`: a validation message is shown and `register` is not called. */
  function HandleSubmit(pwd: string): (r: SubmitAction)
    ensures r == CallRegister <==> ValidatePassword(pwd).None?
    ensures r.ShowError? ==> Some(r.message) == ValidatePassword(pwd)
  {
    match ValidatePassword(pwd)
    case Some(msg) => ShowError(msg)
    case None => CallRegister
  }
}
