/** The server's check of submitted account details (website/content.cpp):
    a user name and the SHA-256 hex digest of the password. */
module Content {
  import Script

  /** `User`: the name and the password digest as sent by the browser. */
  datatype User = User(user: string, pass: string)

  /** The length of a SHA-256 digest written in hex. */
  const DigestLength := 64

  /** `User::valid`: the digest length first, then the name length, then
      the name pattern. */
  predicate Valid(u: User)
  {
    if |u.pass| != DigestLength then false
    else if |u.user| < 4 || |u.user| > 30 then false
    else if !Script.MatchesUserPattern(u.user) then false
    else true
  }

  /** Accepted exactly when the digest has 64 characters, the name 4 to 30,
      and every name character is a letter, digit, '-', '_' or '.'. */
  lemma ValidMeaning(u: User)
    ensures Valid(u) <==>
      && |u.pass| == 64
      && 4 <= |u.user| <= 30
      && forall i :: 0 <= i < |u.user| ==> Script.UserChar(u.user[i])
  {
  }

  /** The server and the browser agree on user names: a name the server
      accepts passes `validUser`, and a name that passes `validUser` is
      accepted together with any 64-character digest. */
  lemma ServerAndClientAgree(u: User)
    ensures Valid(u) ==> Script.ValidUser(u.user)
    ensures Script.ValidUser(u.user) && |u.pass| == 64 ==> Valid(u)
    ensures |u.pass| != 64 ==> !Valid(u)
  {
  }
}
