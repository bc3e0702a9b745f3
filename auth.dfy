/** The pure helpers of src/lib/auth.ts: reading a bearer token out of an
    `Authorization` header, the password strength rules, the e-mail shape
    check and the shape of generated ids. Token verification and the
    browser storage of the auth state are not part of this model. */
module Auth {
  import opened Js

  const BearerPrefix := "Bearer "

  /** The token of a `Bearer` header; none for an absent header or one not
      starting with `Bearer `. */
  function ExtractTokenFromHeader(authHeader: Option<string>): (r: Option<string>)
    ensures r.Some? <==> authHeader.Some? && StartsWith(authHeader.value, BearerPrefix)
    ensures r.Some? ==> authHeader.value == BearerPrefix + r.value
  {
    if authHeader.None? || authHeader.value == "" || !StartsWith(authHeader.value, BearerPrefix) then None
    else
      var token := authHeader.value[7..];
      assert authHeader.value == authHeader.value[..7] + token;
      Some(token)
  }

  /** Extraction undoes prefixing: `Bearer ` followed by any token gives
      that token back. */
  lemma {:induction false} ExtractBearer(token: string)
    ensures ExtractTokenFromHeader(Some(BearerPrefix + token)) == Some(token)
  {
    var h := BearerPrefix + token;
    assert h[..7] == BearerPrefix;
    assert h[7..] == token;
  }

  // Passwords

  /** The five error messages, in the order the checks run. */
  const PasswordMessages: seq<string> := [
    "パスワードは8文字以上である必要があります",
    "パスワードには大文字を含める必要があります",
    "パスワードには小文字を含める必要があります",
    "パスワードには数字を含める必要があります",
    "パスワードには特殊文字を含める必要があります"]

  /** The characters of the class `[!@#$%^&*(),.?":{}|<>]`. */
  const SpecialChars := "!@#$%^&*(),.?\":{}|<>"

  /** `/[lo-hi]/.test(s)`. */
  predicate HasCharIn(s: string, lo: char, hi: char)
  {
    exists k | 0 <= k < |s| :: lo <= s[k] <= hi
  }

  predicate HasSpecial(s: string)
  {
    exists k | 0 <= k < |s| :: s[k] in SpecialChars
  }

  /** Whether the password passes the `rule`-th check. */
  predicate PasswordCheck(password: string, rule: nat)
    requires rule < 5
  {
    match rule
    case 0 => |password| >= 8
    case 1 => HasCharIn(password, 'A', 'Z')
    case 2 => HasCharIn(password, 'a', 'z')
    case 3 => HasCharIn(password, '0', '9')
    case _ => HasSpecial(password)
  }

  /** The messages of the failed checks among the first `n`, in order. */
  function PasswordErrors(password: string, n: nat): seq<string>
    requires n <= 5
  {
    if n == 0 then []
    else PasswordErrors(password, n - 1) + (if PasswordCheck(password, n - 1) then [] else [PasswordMessages[n - 1]])
  }

  /** Runs the five checks in order, pushing the message of each one that
      fails; the password is valid when nothing was pushed. */
  method ValidatePassword(password: string) returns (valid: bool, errors: seq<string>)
    ensures errors == PasswordErrors(password, 5)
    ensures valid <==> errors == []
  {
    errors := [];
    assert errors == PasswordErrors(password, 0);
    if |password| < 8 {
      errors := errors + [PasswordMessages[0]];
    }
    assert errors == PasswordErrors(password, 1);
    if !HasCharIn(password, 'A', 'Z') {
      errors := errors + [PasswordMessages[1]];
    }
    assert errors == PasswordErrors(password, 2);
    if !HasCharIn(password, 'a', 'z') {
      errors := errors + [PasswordMessages[2]];
    }
    assert errors == PasswordErrors(password, 3);
    if !HasCharIn(password, '0', '9') {
      errors := errors + [PasswordMessages[3]];
    }
    assert errors == PasswordErrors(password, 4);
    if !HasSpecial(password) {
      errors := errors + [PasswordMessages[4]];
    }
    assert errors == PasswordErrors(password, 5);
    valid := |errors| == 0;
  }

  lemma {:induction false} PasswordMessagesDistinct()
    ensures forall i, j | 0 <= i < j < 5 :: PasswordMessages[i] != PasswordMessages[j]
  {
    assert PasswordMessages[0][5] == 'は' && PasswordMessages[1][5] == 'に';
    assert PasswordMessages[1][7] == '大' && PasswordMessages[2][7] == '小';
    assert PasswordMessages[3][7] == '数' && PasswordMessages[4][7] == '特';
  }

  /** After `n` checks the errors are the messages of exactly the failed
      checks, in check order, at most one per check. */
  lemma {:induction false} PasswordErrorsAt(password: string, n: nat)
    requires n <= 5
    ensures |PasswordErrors(password, n)| <= n
    ensures forall rule | 0 <= rule < 5 ::
      PasswordMessages[rule] in PasswordErrors(password, n) <==> rule < n && !PasswordCheck(password, rule)
    ensures IsSubsequence(PasswordErrors(password, n), PasswordMessages[..n])
  {
    PasswordMessagesDistinct();
    if n > 0 {
      PasswordErrorsAt(password, n - 1);
      SubsequenceSnoc(PasswordErrors(password, n - 1), PasswordMessages[..n - 1], PasswordMessages[n - 1],
        !PasswordCheck(password, n - 1));
      assert PasswordMessages[..n] == PasswordMessages[..n - 1] + [PasswordMessages[n - 1]];
    }
  }

  /** Extending both sequences by the same element, or only the longer
      one, keeps one a subsequence of the other. */
  lemma {:induction false} SubsequenceSnoc(a: seq<string>, b: seq<string>, x: string, both: bool)
    requires IsSubsequence(a, b)
    ensures IsSubsequence(a + (if both then [x] else []), b + [x])
    decreases |b|
  {
    if a == [] {
      if both {
        SubsequenceOfSnoc(b, x);
        assert a + [x] == [x];
      }
    } else if b == [] {
    } else {
      assert (b + [x])[1..] == b[1..] + [x];
      if a[0] == b[0] && IsSubsequence(a[1..], b[1..]) {
        SubsequenceSnoc(a[1..], b[1..], x, both);
        assert (a + (if both then [x] else []))[1..] == a[1..] + (if both then [x] else []);
      } else {
        SubsequenceSnoc(a, b[1..], x, both);
      }
    }
  }

  lemma {:induction false} SubsequenceOfSnoc(b: seq<string>, x: string)
    ensures IsSubsequence([x], b + [x])
    decreases |b|
  {
    if b != [] {
      assert (b + [x])[1..] == b[1..] + [x];
      SubsequenceOfSnoc(b[1..], x);
    } else {
      assert IsSubsequence([x][1..], [x][1..]);
    }
  }

  /** A password is valid exactly when it passes all five checks, and
      there are never more than five errors. */
  lemma {:induction false} PasswordValidExactly(password: string)
    ensures PasswordErrors(password, 5) == [] <==> forall rule | 0 <= rule < 5 :: PasswordCheck(password, rule)
    ensures |PasswordErrors(password, 5)| <= 5
  {
    PasswordErrorsAt(password, 5);
    if PasswordErrors(password, 5) != [] {
      var e := PasswordErrors(password, 5)[0];
      assert e in PasswordErrors(password, 5);
      MessagesOfRules(password, e);
    }
  }

  lemma {:induction false} MessagesOfRules(password: string, e: string)
    requires e in PasswordErrors(password, 5)
    ensures exists rule | 0 <= rule < 5 :: !PasswordCheck(password, rule)
  {
    PasswordErrorsAt(password, 5);
    ErrorsAreMessages(password, 5);
    var rule :| 0 <= rule < 5 && e == PasswordMessages[rule];
  }

  lemma {:induction false} ErrorsAreMessages(password: string, n: nat)
    requires n <= 5
    ensures forall e | e in PasswordErrors(password, n) :: exists rule | 0 <= rule < 5 :: e == PasswordMessages[rule]
  {
    if n > 0 {
      ErrorsAreMessages(password, n - 1);
    }
  }

  // E-mail addresses

  /** A character matched by `[^\s@]`. */
  predicate Plain(c: char)
  {
    !IsSpace(c) && c != '@'
  }

  predicate PlainRange(s: string, lo: int, hi: int)
    requires 0 <= lo <= hi <= |s|
  {
    forall k | lo <= k < hi :: Plain(s[k])
  }

  /** `/^[^\s@]+@[^\s@]+\.[^\s@]+$/.test(email)`: a non-empty run, `@`, a
      non-empty run, `.`, a non-empty run, none of the runs holding white
      space or `@`. */
  predicate ValidateEmail(email: string)
  {
    exists i, j | 0 < i && i + 1 < j && j + 1 < |email| ::
      email[i] == '@' && email[j] == '.'
      && PlainRange(email, 0, i) && PlainRange(email, i + 1, j) && PlainRange(email, j + 1, |email|)
  }

  /** No white space, exactly one `@` with something before it, and a `.`
      after it with at least one character on each side. */
  predicate EmailShape(email: string)
  {
    (forall k | 0 <= k < |email| :: !IsSpace(email[k]))
    && exists i | 0 < i < |email| ::
      email[i] == '@' && (forall k | 0 <= k < |email| && k != i :: email[k] != '@')
      && exists j | i + 1 < j < |email| - 1 :: email[j] == '.'
  }

  /** The pattern holds exactly when the address has that shape. */
  lemma {:induction false} ValidateEmailShape(email: string)
    ensures ValidateEmail(email) <==> EmailShape(email)
  {
    if ValidateEmail(email) {
      ValidEmailHasShape(email);
    }
    if EmailShape(email) {
      ShapedEmailValid(email);
    }
  }

  lemma {:induction false} ValidEmailHasShape(email: string)
    requires ValidateEmail(email)
    ensures EmailShape(email)
  {
    var i, j :| 0 < i && i + 1 < j && j + 1 < |email| && email[i] == '@' && email[j] == '.'
      && PlainRange(email, 0, i) && PlainRange(email, i + 1, j) && PlainRange(email, j + 1, |email|);
    forall k | 0 <= k < |email| && k != i && k != j ensures Plain(email[k]) {
      if k < i {
      } else if k < j {
      } else {
      }
    }
    assert !IsSpace(email[j]);
    assert email[i] == '@' && (forall k | 0 <= k < |email| && k != i :: email[k] != '@');
    assert i + 1 < j < |email| - 1 && email[j] == '.';
  }

  lemma {:induction false} ShapedEmailValid(email: string)
    requires EmailShape(email)
    ensures ValidateEmail(email)
  {
    var i :| 0 < i < |email| && email[i] == '@' && (forall k | 0 <= k < |email| && k != i :: email[k] != '@')
      && exists j | i + 1 < j < |email| - 1 :: email[j] == '.';
    var j :| i + 1 < j < |email| - 1 && email[j] == '.';
    assert PlainRange(email, 0, i) && PlainRange(email, i + 1, j) && PlainRange(email, j + 1, |email|);
  }

  // Ids

  /** `prefix ? `${prefix}_${randomPart}${timestampPart}` : randomPart +
      timestampPart`, with the two random and clock parts supplied. */
  function GenerateId(prefix: string, randomPart: string, timestampPart: string): (r: string)
    ensures prefix != "" ==> StartsWith(r, prefix + "_") && r[|prefix| + 1..] == randomPart + timestampPart
    ensures prefix == "" ==> r == randomPart + timestampPart
  {
    if prefix != "" then prefix + "_" + randomPart + timestampPart else randomPart + timestampPart
  }
}
