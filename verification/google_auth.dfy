/**
 * Sign-in with Google: the callback of GoogleAuthController links the Google
 * account to the first user matching its Google id or its email, or creates
 * a new, verified user without a password, whose first and last names come
 * from splitting the Google display name at its first space.
 *
 * The users table is a sequence in the order the database returns it; the
 * clock and the id the database assigns to a new row are parameters.
 */
module GoogleAuth {
  import opened Wrappers
  import opened PhpStrings

  /** A users row, as far as the callback reads or writes it. */
  datatype User = User(
    id: nat,
    firstName: string,
    lastName: string,
    email: string,
    googleId: Option<string>,
    emailVerifiedAt: Option<int>,
    password: Option<string>)

  /** What the Google provider reports about the signed-in account. */
  datatype GoogleProfile = GoogleProfile(id: string, email: string, name: string)

  /**
   * `explode(' ', $name)`: the first piece is the first name, the remaining
   * pieces joined by single spaces the last name, or `""` when there is only
   * one piece.
   */
  function SplitName(name: string): (r: (string, string))
    ensures ' ' !in r.0
    ensures ' ' !in name ==> r == (name, "")
    ensures ' ' in name ==> name == r.0 + " " + r.1
  {
    var names := Explode(' ', name);
    ExplodeCount(' ', name);
    JoinExplode(' ', name);
    (names[0], if |names| > 1 then Join(" ", names[1..]) else "")
  }

  /** The first name is exactly the text before the first space of the display name. */
  lemma FirstNameIsPrefixBeforeSpace(name: string)
    ensures var first := SplitName(name).0;
      && |first| <= |name| && name[..|first|] == first
      && ' ' !in first
      && (|first| < |name| ==> name[|first|] == ' ')
  {
    var (first, last) := SplitName(name);
    if ' ' in name {
      assert name == first + " " + last;
      assert name[..|first|] == first;
      assert name[|first|] == ' ';
    }
  }

  /** `google_id` is falsy: null, `""` or `"0"`. */
  predicate HasNoGoogleId(u: User) {
    u.googleId.None? || IsFalsy(u.googleId.value)
  }

  /** `where('google_id', $id)->orWhere('email', $email)`; a null google_id matches no id. */
  predicate MatchesProfile(u: User, p: GoogleProfile) {
    u.googleId == Some(p.id) || u.email == p.email
  }

  /** `->first()`: the position of the first matching user, if any. */
  function FindUser(users: seq<User>, p: GoogleProfile): (r: Option<nat>)
    ensures r.Some? ==> r.value < |users| && MatchesProfile(users[r.value], p)
    ensures r.Some? ==> forall j :: 0 <= j < r.value ==> !MatchesProfile(users[j], p)
    ensures r.None? <==> forall j :: 0 <= j < |users| ==> !MatchesProfile(users[j], p)
  {
    if |users| == 0 then None
    else if MatchesProfile(users[0], p) then Some(0)
    else match FindUser(users[1..], p)
      case None => None
      case Some(i) => Some(i + 1)
  }

  /** The user the callback creates: split name, Google's email and id, verified now, no password. */
  function NewGoogleUser(p: GoogleProfile, newId: nat, now: int): (u: User)
    ensures u.firstName + (if ' ' in p.name then " " + u.lastName else "") == p.name
    ensures u.email == p.email && u.googleId == Some(p.id)
    ensures u.emailVerifiedAt == Some(now) && u.password.None?
  {
    var (first, last) := SplitName(p.name);
    User(newId, first, last, p.email, Some(p.id), Some(now), None)
  }

  /**
   * callback(): the table afterwards and the position of the user who is
   * signed in.
   */
  function Callback(users: seq<User>, p: GoogleProfile, newId: nat, now: int): (r: (seq<User>, nat))
    ensures r.1 < |r.0|
    ensures FindUser(users, p).None? <==> |r.0| == |users| + 1
    ensures FindUser(users, p).None? ==> r.0 == users + [NewGoogleUser(p, newId, now)] && r.1 == |users|
    ensures FindUser(users, p).Some? ==>
      var i := FindUser(users, p).value;
      && r.1 == i
      && (HasNoGoogleId(users[i]) ==> r.0 == users[i := users[i].(googleId := Some(p.id), emailVerifiedAt := Some(now))])
      && (!HasNoGoogleId(users[i]) ==> r.0 == users)
  {
    match FindUser(users, p)
    case None => (users + [NewGoogleUser(p, newId, now)], |users|)
    case Some(i) =>
      if HasNoGoogleId(users[i]) then
        (users[i := users[i].(googleId := Some(p.id), emailVerifiedAt := Some(now))], i)
      else (users, i)
  }

  /**
   * The callback touches at most the signed-in user, never a password, and
   * leaves that user with a Google id when Google's id is not itself falsy.
   */
  lemma CallbackTouchesOnlySignedInUser(users: seq<User>, p: GoogleProfile, newId: nat, now: int)
    ensures var (after, i) := Callback(users, p, newId, now);
      && (forall j :: 0 <= j < |users| && j != i ==> after[j] == users[j])
      && (i < |users| ==> after[i].password == users[i].password && after[i].email == users[i].email)
      && (!IsFalsy(p.id) ==> !HasNoGoogleId(after[i]))
      && MatchesProfile(after[i], p)
  {
  }

  /**
   * A second sign-in with the same Google account, at any later time, finds
   * the same user and changes nothing.
   */
  lemma SecondSignInChangesNothing(users: seq<User>, p: GoogleProfile, newId1: nat, now1: int, newId2: nat, now2: int)
    requires !IsFalsy(p.id)
    ensures var (after, i) := Callback(users, p, newId1, now1);
      Callback(after, p, newId2, now2) == (after, i)
  {
    var (after, i) := Callback(users, p, newId1, now1);
    CallbackTouchesOnlySignedInUser(users, p, newId1, now1);
    assert forall j :: 0 <= j < i ==> !MatchesProfile(after[j], p) by {
      forall j | 0 <= j < i
        ensures !MatchesProfile(after[j], p)
      {
        assert after[j] == users[j];
      }
    }
    FirstMatchIsFound(after, p, i);
  }

  /** A matching user with no matching user before it is the one `first()` returns. */
  lemma {:induction false} FirstMatchIsFound(users: seq<User>, p: GoogleProfile, i: nat)
    requires i < |users| && MatchesProfile(users[i], p)
    requires forall j :: 0 <= j < i ==> !MatchesProfile(users[j], p)
    ensures FindUser(users, p) == Some(i)
  {
    if i > 0 {
      FirstMatchIsFound(users[1..], p, i - 1);
    }
  }
}
