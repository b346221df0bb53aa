/**
 * The input validators for user accounts: password strength and email format.
 * Both are fixed sequences of pattern checks on an immutable string.
 */
module Validators {
  import opened Common

  /** The character classes that occur in the two patterns. */
  datatype CharClass =
    | Upper       // [A-Z]
    | Lower       // [a-z]
    | Digit       // \d, ASCII digits only in this model
    | Special     // [@$!%*?&#]
    | LocalChar   // [a-zA-Z0-9_.+-], the part before '@'
    | DomainChar  // [a-zA-Z0-9-], the label between '@' and the first '.'
    | SuffixChar  // [a-zA-Z0-9-.], everything after that '.'

  predicate IsAlnum(c: char) {
    'A' <= c <= 'Z' || 'a' <= c <= 'z' || '0' <= c <= '9'
  }

  predicate InClass(c: char, k: CharClass) {
    match k
    case Upper => 'A' <= c <= 'Z'
    case Lower => 'a' <= c <= 'z'
    case Digit => '0' <= c <= '9'
    case Special => c in "@$!%*?&#"
    case LocalChar => IsAlnum(c) || c in "_.+-"
    case DomainChar => IsAlnum(c) || c == '-'
    case SuffixChar => IsAlnum(c) || c == '-' || c == '.'
  }

  /** Some character of `s` belongs to class `k`. */
  ghost predicate Has(s: string, k: CharClass) {
    exists i :: 0 <= i < |s| && InClass(s[i], k)
  }

  /** `re.search` of a one-class pattern: scans `s` from the left for a character of class `k`. */
  function Search(s: string, k: CharClass): (found: bool)
    ensures found <==> Has(s, k)
  {
    if s == [] then false
    else if InClass(s[0], k) then true
    else
      var rest := Search(s[1..], k);
      assert Has(s[1..], k) ==> Has(s, k) by {
        if Has(s[1..], k) {
          var i :| 0 <= i < |s[1..]| && InClass(s[1..][i], k);
          assert InClass(s[i + 1], k);
        }
      }
      rest
  }

  // ---------------------------------------------------------------------------
  // validate_password_strength

  const MinPasswordLength := 8

  /** The error `validate_password_strength` raises, one per check. */
  datatype PasswordProblem = TooShort | NoUppercase | NoLowercase | NoDigit | NoSpecial

  function PasswordMessage(p: PasswordProblem): string {
    match p
    case TooShort => "Password must contain at least 8 characters."
    case NoUppercase => "Password must contain at least one uppercase letter."
    case NoLowercase => "Password must contain at least one lower letter."
    case NoDigit => "Password must contain at least one digit."
    case NoSpecial => "Password must contain at least one special character: @, $, !, %, *, ?, #, &."
  }

  /**
   * `validate_password_strength`: `None` when the password is accepted, otherwise the first
   * check that fails, in the order length, upper case, lower case, digit, special character.
   */
  function ValidatePasswordStrength(password: string): (problem: Option<PasswordProblem>)
    ensures problem == None <==>
      |password| >= MinPasswordLength && Has(password, Upper) && Has(password, Lower) &&
      Has(password, Digit) && Has(password, Special)
    ensures problem == Some(TooShort) <==> |password| < MinPasswordLength
    ensures problem == Some(NoUppercase) <==>
      |password| >= MinPasswordLength && !Has(password, Upper)
    ensures problem == Some(NoLowercase) <==>
      |password| >= MinPasswordLength && Has(password, Upper) && !Has(password, Lower)
    ensures problem == Some(NoDigit) <==>
      |password| >= MinPasswordLength && Has(password, Upper) && Has(password, Lower) &&
      !Has(password, Digit)
    ensures problem == Some(NoSpecial) <==>
      |password| >= MinPasswordLength && Has(password, Upper) && Has(password, Lower) &&
      Has(password, Digit) && !Has(password, Special)
  {
    if |password| < MinPasswordLength then Some(TooShort)
    else if !Search(password, Upper) then Some(NoUppercase)
    else if !Search(password, Lower) then Some(NoLowercase)
    else if !Search(password, Digit) then Some(NoDigit)
    else if !Search(password, Special) then Some(NoSpecial)
    else None
  }

  /** Each check raises its own message, so the message names the check that failed. */
  lemma PasswordMessageIdentifiesCheck(p: PasswordProblem, q: PasswordProblem)
    ensures PasswordMessage(p) == PasswordMessage(q) <==> p == q
  {
    // the five messages have five different lengths
    if p != q {
      assert |PasswordMessage(p)| != |PasswordMessage(q)|;
    }
  }

  // ---------------------------------------------------------------------------
  // validate_email

  /**
   * `s` is `L@D.R` with the '@' at index `at` and the '.' that ends `D` at index `dot`:
   * `L` non-empty over LocalChar, `D` non-empty over DomainChar, `R` non-empty over SuffixChar.
   */
  ghost predicate ShapeAt(s: string, at: nat, dot: nat) {
    && 0 < at && at + 1 < dot && dot + 1 < |s|
    && s[at] == '@' && s[dot] == '.'
    && (forall i :: 0 <= i < at ==> InClass(s[i], LocalChar))
    && (forall i :: at < i < dot ==> InClass(s[i], DomainChar))
    && (forall i :: dot < i < |s| ==> InClass(s[i], SuffixChar))
  }

  /** The strings the pattern `[a-zA-Z0-9_.+-]+@[a-zA-Z0-9-]+\.[a-zA-Z0-9-.]+` matches exactly. */
  ghost predicate EmailShape(s: string) {
    exists at: nat, dot: nat :: ShapeAt(s, at, dot)
  }

  /** Length of the longest prefix of `s` over class `k`: a greedy `[...]+` run. */
  function Span(s: string, k: CharClass): (n: nat)
    ensures n <= |s|
    ensures forall i :: 0 <= i < n ==> InClass(s[i], k)
    ensures n < |s| ==> !InClass(s[n], k)
  {
    if s == [] || !InClass(s[0], k) then 0 else 1 + Span(s[1..], k)
  }

  /** A run over `k` that stops at `n` is the greedy run. */
  lemma SpanIs(s: string, k: CharClass, n: nat)
    requires n <= |s|
    requires forall i :: 0 <= i < n ==> InClass(s[i], k)
    requires n < |s| ==> !InClass(s[n], k)
    ensures Span(s, k) == n
  {
  }

  /**
   * The whole of `s` matches the pattern. A greedy left-to-right scan decides it: '@' is in
   * none of the classes and '.' is not a DomainChar, so no backtracking can change the split.
   */
  function FullMatch(s: string): (ok: bool)
    ensures ok <==> EmailShape(s)
  {
    var at := Span(s, LocalChar);
    if at == 0 || at == |s| || s[at] != '@' then
      assert !EmailShape(s) by {
        if a: nat, d: nat :| ShapeAt(s, a, d) {
          SpanIs(s, LocalChar, a);
        }
      }
      false
    else
      var d := Span(s[at + 1..], DomainChar);
      var dot := at + 1 + d;
      var r := dot < |s| && s[dot] == '.' && d > 0 && dot + 1 < |s| &&
               Span(s[dot + 1..], SuffixChar) == |s| - dot - 1;
      assert r ==> ShapeAt(s, at, dot) by {
        if r {
          forall i | at < i < dot ensures InClass(s[i], DomainChar) {
            assert s[i] == s[at + 1..][i - at - 1];
          }
          forall i | dot < i < |s| ensures InClass(s[i], SuffixChar) {
            assert s[i] == s[dot + 1..][i - dot - 1];
          }
        }
      }
      assert EmailShape(s) ==> r by {
        if a: nat, e: nat :| ShapeAt(s, a, e) {
          SpanIs(s, LocalChar, a);
          assert a == at;
          SpanIs(s[at + 1..], DomainChar, e - at - 1);
          assert dot == e;
          SpanIs(s[dot + 1..], SuffixChar, |s| - dot - 1);
        }
      }
      r
  }

  /**
   * `validate_email`: `re.match` of `^...$`. Python's `$` matches at the end of the string and
   * also just before a final newline, so the shape is accepted with or without one trailing "\n".
   */
  function ValidateEmail(email: string): (ok: bool)
    ensures ok <==>
      EmailShape(email) ||
      (|email| > 0 && email[|email| - 1] == '\n' && EmailShape(email[..|email| - 1]))
  {
    FullMatch(email) || (|email| > 0 && email[|email| - 1] == '\n' && FullMatch(email[..|email| - 1]))
  }

  /** A string of the shape holds exactly one '@', at the split point. */
  lemma ShapeHasOneAt(s: string, at: nat, dot: nat)
    requires ShapeAt(s, at, dot)
    ensures forall j :: 0 <= j < |s| && s[j] == '@' ==> j == at
  {
    forall j | 0 <= j < |s| && j != at ensures s[j] != '@' {
      if j < at {
        assert InClass(s[j], LocalChar);
      } else if j < dot {
        assert InClass(s[j], DomainChar);
      } else if j > dot {
        assert InClass(s[j], SuffixChar);
      }
    }
  }

  /** Every email `validate_email` accepts contains exactly one '@'. */
  lemma AcceptedEmailHasOneAt(email: string)
    requires ValidateEmail(email)
    ensures exists at :: 0 <= at < |email| && email[at] == '@' &&
                         (forall j :: 0 <= j < |email| && email[j] == '@' ==> j == at)
  {
    if EmailShape(email) {
      var at: nat, dot: nat :| ShapeAt(email, at, dot);
      ShapeHasOneAt(email, at, dot);
    } else {
      var s := email[..|email| - 1];
      var at: nat, dot: nat :| ShapeAt(s, at, dot);
      ShapeHasOneAt(s, at, dot);
      assert email == s + "\n";
      assert email[at] == '@';
      forall j | 0 <= j < |email| && email[j] == '@' ensures j == at {
        if j < |s| {
          assert s[j] == '@';
        }
      }
    }
  }

  /** The pattern's `$` lets a trailing newline through: "a@b.c\n" passes `validate_email`. */
  lemma TrailingNewlineAccepted()
    ensures ValidateEmail("a@b.c\n")
    ensures !FullMatch("a@b.c\n")
  {
    var s := "a@b.c";
    assert ShapeAt(s, 1, 3);
    assert "a@b.c\n"[..5] == s;
    var t := "a@b.c\n";
    assert !InClass(t[5], SuffixChar);
    forall a: nat, d: nat ensures !ShapeAt(t, a, d) {
      if d < 5 {
        assert 5 < |t| && !InClass(t[5], SuffixChar);
      }
    }
  }

  /** The anchored match the pattern intends never accepts a newline anywhere. */
  lemma FullMatchHasNoNewline(s: string)
    requires FullMatch(s)
    ensures forall i :: 0 <= i < |s| ==> s[i] != '\n'
  {
    var at: nat, dot: nat :| ShapeAt(s, at, dot);
    forall i | 0 <= i < |s| ensures s[i] != '\n' {
      if i < at {
        assert InClass(s[i], LocalChar);
      } else if at < i < dot {
        assert InClass(s[i], DomainChar);
      } else if dot < i {
        assert InClass(s[i], SuffixChar);
      }
    }
  }
}
