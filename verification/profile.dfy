/**
 * The profile page's password change: the two checks on the new password,
 * the call it makes and the fields afterwards.
 */
module Profile {
  import opened Wrappers
  import opened Types

  /** The two password inputs. */
  datatype Passwords = Passwords(newPassword: string, confirm: string)

  /** Why a change was refused before reaching the store. */
  datatype PasswordError = TooShort | Mismatch

  /** The store call a change makes: the user whose password is replaced, and the new password. */
  datatype PasswordChange = PasswordChange(userId: string, password: string)

  /**
   * What `handleChangePassword` leads to: the refusal or the call made,
   * and the inputs afterwards. `stored` is whether the store accepted the
   * update.
   */
  datatype ChangeOutcome = ChangeOutcome(result: Result<PasswordChange, PasswordError>, fields: Passwords)

  /**
   * `s.length`: the number of UTF-16 code units, where a character outside
   * the Basic Multilingual Plane takes two.
   */
  function Utf16Length(s: string): (n: nat)
    ensures |s| <= n <= 2 * |s|
    ensures (forall i :: 0 <= i < |s| ==> s[i] as int <= 0xFFFF) ==> n == |s|
  {
    if s == [] then 0 else (if s[0] as int > 0xFFFF then 2 else 1) + Utf16Length(s[1..])
  }

  /** The length of a concatenation is the sum of the lengths. */
  lemma {:induction false} Utf16LengthAppend(a: string, b: string)
    ensures Utf16Length(a + b) == Utf16Length(a) + Utf16Length(b)
  {
    if a != [] {
      assert (a + b)[0] == a[0] && (a + b)[1..] == a[1..] + b;
      Utf16LengthAppend(a[1..], b);
    } else {
      assert a + b == b;
    }
  }

  /**
   * `handleChangePassword`: a new password shorter than three UTF-16 code
   * units is refused first, then one that differs from its confirmation;
   * otherwise the change is sent for the signed-in user, and the inputs
   * are cleared once the store accepted it.
   */
  function HandleChangePassword(user: Session, p: Passwords, stored: bool): (o: ChangeOutcome)
    ensures o.result == Failure(TooShort) <==> Utf16Length(p.newPassword) < 3
    ensures o.result == Failure(Mismatch) <==> Utf16Length(p.newPassword) >= 3 && p.newPassword != p.confirm
    ensures o.result.Success? <==> Utf16Length(p.newPassword) >= 3 && p.newPassword == p.confirm
    ensures o.result.Success? ==> o.result.value == PasswordChange(user.userId, p.newPassword)
    ensures o.fields == if o.result.Success? && stored then Passwords("", "") else p
  {
    if Utf16Length(p.newPassword) < 3 then ChangeOutcome(Failure(TooShort), p)
    else if p.newPassword != p.confirm then ChangeOutcome(Failure(Mismatch), p)
    else ChangeOutcome(Success(PasswordChange(user.userId, p.newPassword)), if stored then Passwords("", "") else p)
  }

  /** After a successful change the page holds no password: a second click without typing is refused as too short. */
  lemma ChangeTwiceRefused(user: Session, p: Passwords)
    requires HandleChangePassword(user, p, true).result.Success?
    ensures HandleChangePassword(user, HandleChangePassword(user, p, true).fields, true).result == Failure(TooShort)
  {
  }

  /**
   * Every password the page sends was typed identically twice and is at
   * least three code units long, which is at least two characters.
   */
  lemma SentPasswordConfirmed(user: Session, p: Passwords, stored: bool)
    requires HandleChangePassword(user, p, stored).result.Success?
    ensures var sent := HandleChangePassword(user, p, stored).result.value.password;
            sent == p.newPassword && sent == p.confirm && Utf16Length(sent) >= 3 && |sent| >= 2
  {
  }

  /**
   * Two characters pass the length check when one of them lies outside the
   * Basic Multilingual Plane (an emoji, say), since it counts as two code
   * units; two characters of the plane do not.
   */
  lemma TwoCharacterPasswords(user: Session, a: char, b: char, stored: bool)
    ensures var r := HandleChangePassword(user, Passwords([a, b], [a, b]), stored).result;
            r.Success? <==> a as int > 0xFFFF || b as int > 0xFFFF
  {
    Utf16LengthAppend([a], [b]);
    assert [a] + [b] == [a, b];
  }
}
