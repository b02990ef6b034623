/** User registration and the credential check of sign-in, over the "Users" table. The
    cookie sign-in itself is represented by the identity (the claims) that would be issued. */
module Auth {
  import opened Primitives

  datatype User = User(
    id: int,
    userName: string,
    email: Option<string>,
    passwordHash: string,
    role: string,
    createdAt: int,
    updatedAt: Option<int>)

  /** The sign-in form. */
  datatype LoginForm = LoginForm(username: string, password: string, returnUrl: Option<string>)

  /** The registration form's fields that Register reads. */
  datatype RegisterForm = RegisterForm(username: string, email: string, password: string)

  /** The claims issued at sign-in: NameIdentifier (the user's key), Name and Role. */
  datatype Identity = Identity(nameIdentifier: int, name: string, role: string)

  datatype LoginOutcome = InvalidForm | InvalidCredentials | SignedIn(identity: Identity)

  datatype RegisterOutcome = UsernameTaken | EmailTaken | Registered(identity: Identity)

  /** The role every registered user gets. */
  const CustomerRole: string := "Customer"

  /** .NET's `char.IsWhiteSpace`: the space, line and paragraph separators, the controls
      U+0009 to U+000D, and U+0085. */
  predicate IsWhiteSpace(ch: char)
  {
    var n := ch as int;
    || 0x09 <= n <= 0x0D || n == 0x20 || n == 0x85 || n == 0xA0 || n == 0x1680
    || 0x2000 <= n <= 0x200A || n == 0x2028 || n == 0x2029 || n == 0x202F || n == 0x205F
    || n == 0x3000
  }

  /** The code points `IsWhiteSpace` accepts, listed one by one: 25 of them. */
  const WhiteSpaceCodePoints: set<int> :=
    {0x09, 0x0A, 0x0B, 0x0C, 0x0D, 0x20, 0x85, 0xA0, 0x1680,
     0x2000, 0x2001, 0x2002, 0x2003, 0x2004, 0x2005, 0x2006, 0x2007, 0x2008, 0x2009, 0x200A,
     0x2028, 0x2029, 0x202F, 0x205F, 0x3000}

  /** The range-based test and the list agree on every character. */
  lemma WhiteSpaceIsTheListedCharacters(ch: char)
    ensures IsWhiteSpace(ch) <==> ch as int in WhiteSpaceCodePoints
  {
  }

  /** `string.IsNullOrWhiteSpace` on a non-null string: a scan that finds only white space. */
  predicate AllWhiteSpace(s: string)
  {
    s == [] || (IsWhiteSpace(s[0]) && AllWhiteSpace(s[1..]))
  }

  /** A `[Required]` string field is valid: it holds a character that is not white space. */
  predicate Required(s: string)
  {
    exists i :: 0 <= i < |s| && !IsWhiteSpace(s[i])
  }

  /** `[Required]` accepts a string exactly when `string.IsNullOrWhiteSpace` rejects it. */
  lemma {:induction false} RequiredIffNotAllWhiteSpace(s: string)
    ensures Required(s) <==> !AllWhiteSpace(s)
  {
    if s != [] {
      RequiredIffNotAllWhiteSpace(s[1..]);
      if Required(s[1..]) {
        var i :| 0 <= i < |s[1..]| && !IsWhiteSpace(s[1..][i]);
        assert s[i + 1] == s[1..][i];
      }
      if !IsWhiteSpace(s[0]) {
        assert 0 < |s| && !IsWhiteSpace(s[0]);
      }
      if Required(s) && IsWhiteSpace(s[0]) {
        var i :| 0 <= i < |s| && !IsWhiteSpace(s[i]);
        assert s[1..][i - 1] == s[i];
      }
    }
  }

  /** At most one user per user name (the unique index on UserName). */
  ghost predicate UniqueUserNames(users: seq<User>)
  {
    forall i, j :: 0 <= i < j < |users| ==> users[i].userName != users[j].userName
  }

  /** Keys are distinct, positive and below the next key the identity column issues. */
  ghost predicate UsersWellKeyed(users: seq<User>, nextId: int)
  {
    && 1 <= nextId
    && (forall i, j :: 0 <= i < j < |users| ==> users[i].id != users[j].id)
    && (forall i :: 0 <= i < |users| ==> 1 <= users[i].id < nextId)
  }

  predicate UserNameInUse(users: seq<User>, userName: string)
  {
    exists i :: 0 <= i < |users| && users[i].userName == userName
  }

  predicate EmailInUse(users: seq<User>, email: string)
  {
    exists i :: 0 <= i < |users| && users[i].email == Some(email)
  }

  /** The index of the first user with the given name (`FirstOrDefault`). */
  function FindUser(users: seq<User>, userName: string): Option<nat>
  {
    FirstIndex(users, (u: User) => u.userName == userName)
  }

  function IdentityOf(u: User): Identity
  {
    Identity(u.id, u.userName, u.role)
  }

  /** Login: the form must be valid, the user name must exist and the stored password must
      equal the one supplied; then the identity of that user is issued. */
  function Login(users: seq<User>, form: LoginForm): (r: LoginOutcome)
    ensures r.InvalidForm? <==> !Required(form.username) || !Required(form.password)
    ensures r.SignedIn? ==>
      exists i :: 0 <= i < |users| && users[i].userName == form.username
                  && users[i].passwordHash == form.password && r.identity == IdentityOf(users[i])
    ensures !UserNameInUse(users, form.username) ==> !r.SignedIn?
  {
    if !Required(form.username) || !Required(form.password) then InvalidForm
    else match FindUser(users, form.username)
      case None => InvalidCredentials
      case Some(k) =>
        if users[k].passwordHash != form.password then InvalidCredentials
        else SignedIn(IdentityOf(users[k]))
  }

  /** With unique user names, a valid form signs in exactly when some user has that name and
      that password, and the identity carries that user's key, name and role. */
  lemma LoginSucceedsIffCredentialsMatch(users: seq<User>, form: LoginForm)
    requires UniqueUserNames(users)
    requires Required(form.username) && Required(form.password)
    ensures Login(users, form).SignedIn? <==>
      exists i :: 0 <= i < |users| && users[i].userName == form.username
        && users[i].passwordHash == form.password
    ensures forall i :: (0 <= i < |users| && users[i].userName == form.username
                         && users[i].passwordHash == form.password) ==>
      Login(users, form) == SignedIn(IdentityOf(users[i]))
  {
    forall i | 0 <= i < |users| && users[i].userName == form.username
      ensures FindUser(users, form.username) == Some(i)
    {
      var k := FindUser(users, form.username);
      assert UserNameInUse(users, form.username);
      assert k.Some? && users[k.value].userName == users[i].userName;
    }
  }

  /** The outcome of Register's checks: the user name first, then the e-mail address. */
  function RegisterDecision(users: seq<User>, form: RegisterForm, newId: int): (r: RegisterOutcome)
    ensures r.UsernameTaken? <==> UserNameInUse(users, form.username)
    ensures r.EmailTaken? <==> !UserNameInUse(users, form.username) && EmailInUse(users, form.email)
    ensures r.Registered? ==> r.identity == Identity(newId, form.username, CustomerRole)
  {
    if UserNameInUse(users, form.username) then UsernameTaken
    else if EmailInUse(users, form.email) then EmailTaken
    else Registered(Identity(newId, form.username, CustomerRole))
  }

  /** The user Register inserts. */
  function NewUser(id: int, form: RegisterForm, now: int): User
  {
    User(id, form.username, Some(form.email), form.password, CustomerRole, now, None)
  }

  /** An accepted registration keeps user names unique. */
  lemma RegisterKeepsUserNamesUnique(users: seq<User>, form: RegisterForm, id: int, now: int)
    requires UniqueUserNames(users)
    requires RegisterDecision(users, form, id).Registered?
    ensures UniqueUserNames(users + [NewUser(id, form, now)])
  {
    var r := users + [NewUser(id, form, now)];
    forall i, j | 0 <= i < j < |r| ensures r[i].userName != r[j].userName {
      if j == |users| {
        assert r[i] == users[i];
      }
    }
  }

  /** After an accepted registration the new user can sign in with the same name and
      password, and receives the identity Register issued. */
  lemma {:induction false} RegisterThenLogin(users: seq<User>, form: RegisterForm, id: int, now: int,
                                             returnUrl: Option<string>)
    requires UniqueUserNames(users)
    requires RegisterDecision(users, form, id).Registered?
    requires Required(form.username) && Required(form.password)
    ensures Login(users + [NewUser(id, form, now)], LoginForm(form.username, form.password, returnUrl))
         == SignedIn(RegisterDecision(users, form, id).identity)
  {
    var r := users + [NewUser(id, form, now)];
    RegisterKeepsUserNamesUnique(users, form, id, now);
    LoginSucceedsIffCredentialsMatch(r, LoginForm(form.username, form.password, returnUrl));
    assert r[|users|] == NewUser(id, form, now);
  }

  class UserTable {
    /** The "Users" table. */
    var users: seq<User>
    /** The key the identity column gives the next inserted user. */
    var nextId: int

    ghost predicate Valid()
      reads this
    {
      UsersWellKeyed(users, nextId) && UniqueUserNames(users)
    }

    constructor()
      ensures Valid() && users == []
    {
      users := [];
      nextId := 1;
    }

    /** Register: rejects a taken user name, then a taken e-mail address; otherwise inserts
        one Customer whose stored password is the one supplied, and signs them in. */
    method Register(form: RegisterForm, now: int) returns (outcome: RegisterOutcome)
      requires Valid()
      modifies this
      ensures Valid()
      ensures outcome == RegisterDecision(old(users), form, old(nextId))
      ensures outcome.Registered? ==>
        users == old(users) + [NewUser(old(nextId), form, now)] && nextId == old(nextId) + 1
      ensures !outcome.Registered? ==> users == old(users) && nextId == old(nextId)
    {
      if UserNameInUse(users, form.username) {
        return UsernameTaken;
      }
      if EmailInUse(users, form.email) {
        return EmailTaken;
      }
      var user := NewUser(nextId, form, now);
      RegisterKeepsUserNamesUnique(users, form, nextId, now);
      users := users + [user];
      nextId := nextId + 1;
      outcome := Registered(IdentityOf(user));
    }
  }
}
