/** What the user-sync endpoint derives from the identity provider's user
    record before it touches the database: the e-mail address, the display
    name, and the name and key of the personal workspace. */
module Sync {
  import opened Entities

  /** One address of the identity record; `verification` is the status of
      its verification, when there is one. */
  datatype EmailAddress = EmailAddress(id: string, address: string, verification: Option<string>)

  datatype IdentityUser = IdentityUser(
    id: string,
    primaryEmailId: Option<string>,
    emails: seq<EmailAddress>,
    firstName: Option<string>,
    lastName: Option<string>,
    username: Option<string>)

  /** Indexing the empty list of addresses raises, so the request fails
      with a server error before the endpoint's own 400 can be reached. */
  datatype SyncError = EmptyAddressList

  predicate Verified(e: EmailAddress) {
    e.verification.Some? && e.verification.value == "verified"
  }

  /** The first address with the given id. */
  function FindById(emails: seq<EmailAddress>, id: string): (r: Option<nat>)
    ensures r.Some? ==>
      r.value < |emails| && emails[r.value].id == id &&
      forall k :: 0 <= k < r.value ==> emails[k].id != id
    ensures r.None? ==> forall k :: 0 <= k < |emails| ==> emails[k].id != id
  {
    if emails == [] then None
    else if emails[0].id == id then Some(0)
    else match FindById(emails[1..], id)
      case None => None
      case Some(i) => Some(i + 1)
  }

  /** The first verified address. */
  function FindVerified(emails: seq<EmailAddress>): (r: Option<nat>)
    ensures r.Some? ==>
      r.value < |emails| && Verified(emails[r.value]) &&
      forall k :: 0 <= k < r.value ==> !Verified(emails[k])
    ensures r.None? ==> forall k :: 0 <= k < |emails| ==> !Verified(emails[k])
  {
    if emails == [] then None
    else if Verified(emails[0]) then Some(0)
    else match FindVerified(emails[1..])
      case None => None
      case Some(i) => Some(i + 1)
  }

  /** The address the user is synced with: the primary one, else the first
      verified one, else the first one. */
  function SelectEmail(u: IdentityUser): (r: Result<EmailAddress, SyncError>)
    ensures r.Err? <==> u.emails == []
    ensures r.Ok? ==> r.value in u.emails
  {
    var primary := if Truthy(u.primaryEmailId) && u.emails != [] then FindById(u.emails, u.primaryEmailId.value) else None;
    match primary
    case Some(i) => Ok(u.emails[i])
    case None =>
      match (if u.emails != [] then FindVerified(u.emails) else None)
      case Some(i) => Ok(u.emails[i])
      case None => if u.emails == [] then Err(EmptyAddressList) else Ok(u.emails[0])
  }

  /** The primary address is listed. */
  predicate HasPrimary(u: IdentityUser) {
    Truthy(u.primaryEmailId) && exists k :: 0 <= k < |u.emails| && u.emails[k].id == u.primaryEmailId.value
  }

  /** The priority order of the choice, each case with its first-match
      rule. */
  lemma SelectEmailPriority(u: IdentityUser)
    ensures HasPrimary(u) ==>
      exists i :: 0 <= i < |u.emails| && SelectEmail(u) == Ok(u.emails[i]) &&
        u.emails[i].id == u.primaryEmailId.value &&
        forall k :: 0 <= k < i ==> u.emails[k].id != u.primaryEmailId.value
    ensures !HasPrimary(u) && (exists k :: 0 <= k < |u.emails| && Verified(u.emails[k])) ==>
      exists i :: 0 <= i < |u.emails| && SelectEmail(u) == Ok(u.emails[i]) && Verified(u.emails[i]) &&
        forall k :: 0 <= k < i ==> !Verified(u.emails[k])
    ensures !HasPrimary(u) && (forall k :: 0 <= k < |u.emails| ==> !Verified(u.emails[k])) && u.emails != [] ==>
      SelectEmail(u) == Ok(u.emails[0])
  {
  }

  /** Characters Python's str.strip removes in this model: the ASCII
      whitespace and the four separator controls. */
  predicate IsSpace(c: char) {
    c == ' ' || c == '\t' || c == '\n' || c == '\r' || c == '\U{B}' || c == '\U{C}' ||
    ('\U{1C}' <= c <= '\U{1F}')
  }

  function StripLeft(s: string): (r: string)
    ensures |r| <= |s| && r == s[|s| - |r|..]
    ensures r != [] ==> !IsSpace(r[0])
    ensures forall k :: 0 <= k < |s| - |r| ==> IsSpace(s[k])
  {
    if s != [] && IsSpace(s[0]) then StripLeft(s[1..]) else s
  }

  function StripRight(s: string): (r: string)
    ensures |r| <= |s| && r == s[..|r|]
    ensures r != [] ==> !IsSpace(r[|r| - 1])
    ensures forall k :: |r| <= k < |s| ==> IsSpace(s[k])
  {
    if s != [] && IsSpace(s[|s| - 1]) then StripRight(s[..|s| - 1]) else s
  }

  /** `s.strip()`. */
  function Strip(s: string): string {
    StripRight(StripLeft(s))
  }

  /** Stripping keeps a contiguous middle part that neither starts nor ends
      with whitespace, and drops only whitespace around it. */
  lemma StripSpec(s: string)
    ensures var r := Strip(s);
      (r != [] ==> !IsSpace(r[0]) && !IsSpace(r[|r| - 1])) &&
      exists i, j :: 0 <= i <= j <= |s| && r == s[i..j] &&
        (forall k :: 0 <= k < i ==> IsSpace(s[k])) && (forall k :: j <= k < |s| ==> IsSpace(s[k]))
  {
    var l := StripLeft(s);
    var r := StripRight(l);
    var i := |s| - |l|;
    var j := i + |r|;
    assert r == s[i..j];
    assert forall k :: j <= k < |s| ==> s[k] == l[k - i];
  }

  /** A text that does not start or end with whitespace is its own strip. */
  lemma StripKeeps(s: string)
    requires s != [] ==> !IsSpace(s[0]) && !IsSpace(s[|s| - 1])
    ensures Strip(s) == s
  {
  }

  /** The display name: first and last name joined by a space and
      stripped, else the first name, else the username, else none. */
  function DisplayName(u: IdentityUser): (r: Option<string>)
    ensures r.None? <==> !Truthy(u.firstName) && !Truthy(u.username)
  {
    if Truthy(u.firstName) && Truthy(u.lastName) then Some(Strip(u.firstName.value + " " + u.lastName.value))
    else if Truthy(u.firstName) then u.firstName
    else if Truthy(u.username) then u.username
    else None
  }

  /** Which source the name comes from. */
  lemma DisplayNameSources(u: IdentityUser)
    ensures (Truthy(u.firstName) && Truthy(u.lastName) &&
             !IsSpace(u.firstName.value[0]) && !IsSpace(u.lastName.value[|u.lastName.value| - 1])) ==>
      DisplayName(u) == Some(u.firstName.value + " " + u.lastName.value)
    ensures Truthy(u.firstName) && !Truthy(u.lastName) ==> DisplayName(u) == u.firstName
    ensures !Truthy(u.firstName) && Truthy(u.username) ==> DisplayName(u) == u.username
  {
  }

  /** A text made only of whitespace strips to nothing. */
  lemma StripAllSpace(s: string)
    requires forall k :: 0 <= k < |s| ==> IsSpace(s[k])
    ensures Strip(s) == []
  {
  }

  /** A first and last name made only of whitespace give an empty name,
      which counts as no name downstream. */
  lemma DisplayNameCanBeEmpty(u: IdentityUser)
    requires Truthy(u.firstName) && Truthy(u.lastName)
    requires forall k :: 0 <= k < |u.firstName.value| ==> IsSpace(u.firstName.value[k])
    requires forall k :: 0 <= k < |u.lastName.value| ==> IsSpace(u.lastName.value[k])
    ensures DisplayName(u) == Some("")
  {
  }

  /** `email.split('@')[0]`: everything before the first '@'. */
  function LocalPart(email: string): (r: string)
    ensures |r| <= |email| && r == email[..|r|]
    ensures '@' !in r
    ensures |r| < |email| ==> email[|r|] == '@'
  {
    if email == [] || email[0] == '@' then []
    else
      var rest := LocalPart(email[1..]);
      assert [email[0]] + rest == email[..|rest| + 1];
      [email[0]] + rest
  }

  /** The name of the personal workspace created for a new user. */
  function PersonalOrgName(name: Option<string>, email: string): (r: string)
    ensures Truthy(name) ==> r == name.value + "'s Workspace"
    ensures !Truthy(name) ==> r == LocalPart(email) + "'s Workspace"
  {
    (if Truthy(name) then name.value else LocalPart(email)) + "'s Workspace"
  }

  /** The key the personal workspace is looked up and stored under. */
  function PersonalOrgId(userId: string): (r: string)
    ensures |r| == |userId| + 9 && r[..9] == "personal_" && r[9..] == userId
  {
    "personal_" + userId
  }

  /** Distinct users get distinct personal workspaces. */
  lemma PersonalOrgIdInjective(a: string, b: string)
    requires PersonalOrgId(a) == PersonalOrgId(b)
    ensures a == b
  {
  }

  /** A new user with neither a first name nor a username gets a
      workspace named after the local part of the chosen address. */
  lemma PersonalWorkspaceFromRecord(u: IdentityUser)
    requires u.emails != []
    ensures !Truthy(u.firstName) && !Truthy(u.username) ==>
      PersonalOrgName(DisplayName(u), SelectEmail(u).value.address) == LocalPart(SelectEmail(u).value.address) + "'s Workspace"
  {
  }

  // ---------------------------------------------------------------------
  // The name of an organization taken over from a membership
  // ---------------------------------------------------------------------

  /** As written: a conditional expression binds more loosely than `or`,
      so the whole `clerkName or "<name>'s Organization"` is the
      then-branch and a user without a name never gets the provider's
      organization name. */
  function MembershipOrgNameAsWritten(clerkName: Option<string>, name: Option<string>, email: string): (r: string)
    ensures !Truthy(name) ==> r == LocalPart(email) + "'s Organization"
  {
    if Truthy(name) then (if Truthy(clerkName) then clerkName.value else name.value + "'s Organization")
    else LocalPart(email) + "'s Organization"
  }

  /** The provider's name is lost for a user without a name. */
  lemma MembershipOrgNameAsWrittenLosesName()
    ensures MembershipOrgNameAsWritten(Some("Acme"), None, "bob@acme.io") == "bob's Organization"
    ensures MembershipOrgName(Some("Acme"), None, "bob@acme.io") == "Acme"
  {
    assert LocalPart("bob@acme.io") == "bob";
  }

  /** Evidently intended: the provider's name when it has one, and only
      otherwise the fallback built from the user's name or address. */
  function MembershipOrgName(clerkName: Option<string>, name: Option<string>, email: string): (r: string)
    ensures Truthy(clerkName) ==> r == clerkName.value
    ensures !Truthy(clerkName) ==> r == PersonalPrefix(name, email) + "'s Organization"
  {
    if Truthy(clerkName) then clerkName.value
    else PersonalPrefix(name, email) + "'s Organization"
  }

  /** The user's name, falling back to the local part of the address. */
  function PersonalPrefix(name: Option<string>, email: string): string {
    if Truthy(name) then name.value else LocalPart(email)
  }

  /** The two readings agree exactly when the user has a name or the
      provider has no name for the organization. */
  lemma MembershipOrgNameReadings(clerkName: Option<string>, name: Option<string>, email: string)
    ensures Truthy(name) || !Truthy(clerkName) ==>
      MembershipOrgNameAsWritten(clerkName, name, email) == MembershipOrgName(clerkName, name, email)
    ensures !Truthy(name) && Truthy(clerkName) ==>
      MembershipOrgNameAsWritten(clerkName, name, email) == LocalPart(email) + "'s Organization" &&
      MembershipOrgName(clerkName, name, email) == clerkName.value
  {
  }
}
