/** User identity in authors/apps/authentication/serializers.py: the
    registration validators for usernames and passwords, the login check
    chain, the user update that keeps passwords out of `setattr`, and the
    one-shot account verification. */
module Identity {
  import opened Wrappers
  import opened Text

  /** A row of the user table. `token` is the `User.token` property, a JWT
      signed outside this model, so it is carried as a given value. */
  datatype Account = Account(
    email: string,
    username: string,
    passwordHash: string,
    token: string,
    isVerified: bool,
    isActive: bool)

  // ------------------------------------------------------ validate_username

  datatype UsernameError = BadLength | BadCharacters | UsernameTaken
  {
    function Message(): string
    {
      match this
      case BadLength => "The username can only be between 5 to 25 characters."
      case BadCharacters => "Username only takes letters, numbers, and underscores."
      case UsernameTaken => "The username you have used is already taken."
    }
  }

  /** Where the greedy `[A-Za-z0-9_]*` stops: the length of the longest
      prefix of word characters. */
  function WordPrefix(s: string): (n: nat)
    ensures n <= |s|
    ensures forall i :: 0 <= i < n ==> IsWordChar(s[i])
    ensures n < |s| ==> !IsWordChar(s[n])
  {
    if s == [] || !IsWordChar(s[0]) then 0 else 1 + WordPrefix(s[1..])
  }

  /** `re.match("^[A-Za-z0-9_]*$", s)` succeeds: after the star, Python's
      `$` matches at the end or just before a final newline. */
  predicate UsernamePatternMatches(s: string)
    ensures UsernamePatternMatches(s) <==>
      (forall i :: 0 <= i < |s| ==> IsWordChar(s[i])) ||
      (|s| > 0 && s[|s| - 1] == '\n' && forall i :: 0 <= i < |s| - 1 ==> IsWordChar(s[i]))
  {
    var n := WordPrefix(s);
    n == |s| || (n == |s| - 1 && s[n] == '\n')
  }

  /** `RegistrationSerializer.validate_username`: length first, then the
      character class, then uniqueness against the usernames in use. */
  function ValidateUsername(username: string, taken: set<string>): (r: Result<string, UsernameError>)
    ensures r == Failure(BadLength) <==> |username| >= 25 || |username| < 5
    ensures r == Failure(BadCharacters) <==>
      5 <= |username| < 25 &&
      (exists i :: 0 <= i < |username| && !IsWordChar(username[i])) &&
      !(username[|username| - 1] == '\n' && forall i :: 0 <= i < |username| - 1 ==> IsWordChar(username[i]))
    ensures r == Failure(UsernameTaken) <==>
      5 <= |username| < 25 && UsernamePatternMatches(username) && username in taken
    ensures r.Success? ==> r == Success(username)
  {
    if |username| >= 25 || |username| < 5 then Failure(BadLength)
    else if !UsernamePatternMatches(username) then Failure(BadCharacters)
    else if username in taken then Failure(UsernameTaken)
    else Success(username)
  }

  /** A username that is all word characters is accepted exactly when its
      length is 5 to 24 and it is unused. */
  lemma UsernameAcceptance(username: string, taken: set<string>)
    requires forall i :: 0 <= i < |username| ==> IsWordChar(username[i])
    ensures ValidateUsername(username, taken).Success? <==> 5 <= |username| <= 24 && username !in taken
  {
  }

  /** Because of `$`, a word followed by one newline passes the character
      check, newline included in the length. */
  lemma UsernameTrailingNewline()
    ensures ValidateUsername("alice\n", {}) == Success("alice\n")
    ensures ValidateUsername("ali\nce", {}) == Failure(BadCharacters)
  {
    assert WordPrefix("alice\n") == 5 by {
      assert "alice\n"[1..] == "lice\n" && "lice\n"[1..] == "ice\n" && "ice\n"[1..] == "ce\n";
      assert "ce\n"[1..] == "e\n" && "e\n"[1..] == "\n";
    }
    assert !IsWordChar("ali\nce"[3]);
  }

  // ------------------------------------------------------ validate_password

  datatype PasswordError = TooShort | TooLong | TooWeak
  {
    function Message(): string
    {
      match this
      case TooShort => "Password cannot be less than 8 characters."
      case TooLong => "Password cannot be more than 128 characters."
      case TooWeak => "Password must at least contain a capital letter or number and special character."
    }
  }

  /** `s.isalnum()`: non-empty and every character a letter or digit. */
  predicate IsAlnumString(s: string)
  {
    |s| > 0 && forall i :: 0 <= i < |s| ==> IsAlnum(s[i])
  }

  /** `re.search('[0-9]|[A-Z]', s)`: the index of the first digit or
      capital letter, if any. */
  function SearchDigitOrUpper(s: string): (r: Option<nat>)
    ensures r.Some? ==> r.value < |s| && (IsDigit(s[r.value]) || IsUpper(s[r.value]))
    ensures r.Some? ==> forall j :: 0 <= j < r.value ==> !IsDigit(s[j]) && !IsUpper(s[j])
    ensures r.None? <==> forall i :: 0 <= i < |s| ==> !IsDigit(s[i]) && !IsUpper(s[i])
  {
    if s == [] then None
    else if IsDigit(s[0]) || IsUpper(s[0]) then Some(0)
    else match SearchDigitOrUpper(s[1..])
      case None => None
      case Some(k) => Some(k + 1)
  }

  /** `RegistrationSerializer.validate_password`. */
  function ValidatePassword(password: string): (r: Result<string, PasswordError>)
    ensures r == Failure(TooShort) <==> |password| < 8
    ensures r == Failure(TooLong) <==> |password| >= 128
    ensures r.Success? <==>
      && 8 <= |password| <= 127
      && (exists i :: 0 <= i < |password| && !IsAlnum(password[i]))
      && (exists i :: 0 <= i < |password| && (IsDigit(password[i]) || IsUpper(password[i])))
    ensures r.Success? ==> r == Success(password)
  {
    if |password| < 8 then Failure(TooShort)
    else if |password| >= 128 then Failure(TooLong)
    else if IsAlnumString(password) || SearchDigitOrUpper(password).None? then Failure(TooWeak)
    else Success(password)
  }

  /** A password of letters and digits only is always too weak, whatever
      its length and mix of cases. */
  lemma AlphanumericPasswordRejected(password: string)
    requires 8 <= |password| < 128
    requires forall i :: 0 <= i < |password| ==> IsAlnum(password[i])
    ensures ValidatePassword(password) == Failure(TooWeak)
  {
  }

  // ------------------------------------------------ LoginSerializer.validate

  datatype LoginError = EmailRequired | PasswordRequired | WrongCredentials | NotVerified | Deactivated
  {
    function Message(): string
    {
      match this
      case EmailRequired => "An email address is required to log in."
      case PasswordRequired => "A password is required to log in."
      case WrongCredentials => "The email or password is incorrect."
      case NotVerified => "Please check your email and verify account"
      case Deactivated => "This user has been deactivated."
    }
  }

  datatype LoginData = LoginData(email: string, username: string, token: string)

  /** `LoginSerializer.validate`. Django's `authenticate(username=email,
      password=password)` is the parameter `authenticate`. */
  function Login(email: Option<string>, password: Option<string>,
                 authenticate: (string, string) -> Option<Account>): (r: Result<LoginData, LoginError>)
    ensures r == Failure(EmailRequired) <==> email.None?
    ensures r == Failure(PasswordRequired) <==> email.Some? && password.None?
    ensures r == Failure(WrongCredentials) <==>
      email.Some? && password.Some? && authenticate(email.value, password.value).None?
    ensures r == Failure(NotVerified) <==>
      email.Some? && password.Some? && authenticate(email.value, password.value).Some? &&
      !authenticate(email.value, password.value).value.isVerified
    ensures r == Failure(Deactivated) <==>
      email.Some? && password.Some? && authenticate(email.value, password.value).Some? &&
      authenticate(email.value, password.value).value.isVerified &&
      !authenticate(email.value, password.value).value.isActive
    ensures r.Success? ==>
      email.Some? && password.Some? && authenticate(email.value, password.value).Some? &&
      var user := authenticate(email.value, password.value).value;
      user.isVerified && user.isActive && r.value == LoginData(user.email, user.username, user.token)
  {
    if email.None? then Failure(EmailRequired)
    else if password.None? then Failure(PasswordRequired)
    else match authenticate(email.value, password.value)
      case None => Failure(WrongCredentials)
      case Some(user) =>
        if !user.isVerified then Failure(NotVerified)
        else if !user.isActive then Failure(Deactivated)
        else Success(LoginData(user.email, user.username, user.token))
  }

  /** Exactly the verified, active accounts that `authenticate` returns can
      log in. */
  lemma LoginSucceedsIffVerifiedAndActive(email: string, password: string,
                                          authenticate: (string, string) -> Option<Account>)
    ensures Login(Some(email), Some(password), authenticate).Success? <==>
      authenticate(email, password).Some? &&
      authenticate(email, password).value.isVerified && authenticate(email, password).value.isActive
  {
  }

  // ------------------------------------------------- UserSerializer.update

  /** The writable fields of `UserSerializer` (`token` is read-only). */
  datatype Field = Email | Username | Password

  /** Validated data: the supplied fields in order, each at most once. */
  predicate DistinctKeys(data: seq<(Field, string)>)
  {
    forall i, j :: 0 <= i < j < |data| ==> data[i].0 != data[j].0
  }

  /** `validated_data.pop('password', None)`: the supplied password. */
  function PasswordOf(data: seq<(Field, string)>): (r: Option<string>)
    ensures r.Some? ==> (Password, r.value) in data
    ensures r.None? ==> forall i :: 0 <= i < |data| ==> data[i].0 != Password
  {
    if data == [] then None
    else if data[0].0 == Password then Some(data[0].1)
    else PasswordOf(data[1..])
  }

  /** What is left in `validated_data` after the pop, in the same order. */
  function WithoutPassword(data: seq<(Field, string)>): (r: seq<(Field, string)>)
    ensures forall i :: 0 <= i < |r| ==> r[i].0 != Password && r[i] in data
    ensures forall i :: 0 <= i < |data| && data[i].0 != Password ==> data[i] in r
  {
    if data == [] then []
    else if data[0].0 == Password then WithoutPassword(data[1..])
    else [data[0]] + WithoutPassword(data[1..])
  }

  /** `setattr(instance, key, value)` for a non-password field. */
  function SetField(a: Account, f: Field, v: string): Account
    requires f != Password
  {
    if f == Email then a.(email := v) else a.(username := v)
  }

  /** The `setattr` loop over `items`, in order. */
  function ApplyAll(a: Account, items: seq<(Field, string)>): Account
    requires forall i :: 0 <= i < |items| ==> items[i].0 != Password
  {
    if items == [] then a
    else SetField(ApplyAll(a, items[..|items| - 1]), items[|items| - 1].0, items[|items| - 1].1)
  }

  /** The account after `UserSerializer.update`: the fields set in order,
      then the password through `setPassword` when one was supplied. */
  function Updated(a: Account, data: seq<(Field, string)>, setPassword: string -> string): Account
  {
    var b := ApplyAll(a, WithoutPassword(data));
    match PasswordOf(data)
    case None => b
    case Some(p) => b.(passwordHash := setPassword(p))
  }

  /** The value of a non-password field. */
  function Get(a: Account, f: Field): string
    requires f != Password
  {
    if f == Email then a.email else a.username
  }

  /** Applying the items never touches the password, the token or the
      flags. */
  lemma {:induction false} ApplyAllKeeps(a: Account, items: seq<(Field, string)>)
    requires forall i :: 0 <= i < |items| ==> items[i].0 != Password
    ensures var b := ApplyAll(a, items);
      b.passwordHash == a.passwordHash && b.token == a.token && b.isVerified == a.isVerified && b.isActive == a.isActive
  {
    if items != [] {
      ApplyAllKeeps(a, items[..|items| - 1]);
    }
  }

  /** A field no item names keeps its value. */
  lemma {:induction false} ApplyAllUntouched(a: Account, items: seq<(Field, string)>, f: Field)
    requires f != Password
    requires forall i :: 0 <= i < |items| ==> items[i].0 != Password && items[i].0 != f
    ensures Get(ApplyAll(a, items), f) == Get(a, f)
  {
    if items != [] {
      ApplyAllUntouched(a, items[..|items| - 1], f);
    }
  }

  /** After the items, a field holds the value of the last item naming
      it. */
  lemma {:induction false} ApplyAllLast(a: Account, items: seq<(Field, string)>, i: nat)
    requires forall k :: 0 <= k < |items| ==> items[k].0 != Password
    requires i < |items| && forall j :: i < j < |items| ==> items[j].0 != items[i].0
    ensures Get(ApplyAll(a, items), items[i].0) == items[i].1
  {
    var n := |items|;
    var init, f := items[..n - 1], items[i].0;
    if i < n - 1 {
      assert init[i] == items[i];
      ApplyAllLast(a, init, i);
      assert Get(ApplyAll(a, items), f) == Get(ApplyAll(a, init), f);
    }
  }

  /** A field given in distinct-key data is set to the given value. */
  lemma FieldFromData(a: Account, items: seq<(Field, string)>, f: Field, v: string)
    requires f != Password && DistinctKeys(items) && (f, v) in items
    requires forall i :: 0 <= i < |items| ==> items[i].0 != Password
    ensures Get(ApplyAll(a, items), f) == v
  {
    var i :| 0 <= i < |items| && items[i] == (f, v);
    ApplyAllLast(a, items, i);
  }

  /** `UserSerializer.update` copies every supplied non-password field,
      changes the password hash only through `setPassword` and only when a
      password is supplied, and leaves the token and flags alone. */
  lemma UpdateEffect(a: Account, data: seq<(Field, string)>, setPassword: string -> string)
    requires DistinctKeys(data)
    ensures var b := Updated(a, data, setPassword);
      && b.token == a.token && b.isVerified == a.isVerified && b.isActive == a.isActive
      && (forall v :: (Email, v) in data ==> b.email == v)
      && (forall v :: (Username, v) in data ==> b.username == v)
      && (forall v :: (Password, v) in data ==> b.passwordHash == setPassword(v))
      && ((forall v :: (Email, v) !in data) ==> b.email == a.email)
      && ((forall v :: (Username, v) !in data) ==> b.username == a.username)
      && ((forall v :: (Password, v) !in data) ==> b.passwordHash == a.passwordHash)
  {
    var items := WithoutPassword(data);
    ApplyAllKeeps(a, items);
    WithoutPasswordKeys(data);
    if forall v :: (Email, v) !in data {
      ApplyAllUntouched(a, items, Email);
    }
    if forall v :: (Username, v) !in data {
      ApplyAllUntouched(a, items, Username);
    }
    forall v | (Email, v) in data ensures ApplyAll(a, items).email == v {
      FieldFromData(a, items, Email, v);
    }
    forall v | (Username, v) in data ensures ApplyAll(a, items).username == v {
      FieldFromData(a, items, Username, v);
    }
    forall v | (Password, v) in data ensures PasswordOf(data) == Some(v) {
      PasswordOfUnique(data, v);
    }
  }

  lemma {:induction false} PasswordOfUnique(data: seq<(Field, string)>, v: string)
    requires DistinctKeys(data) && (Password, v) in data
    ensures PasswordOf(data) == Some(v)
  {
    if data[0].0 != Password {
      assert (Password, v) in data[1..];
      PasswordOfUnique(data[1..], v);
    }
  }

  /** Removing the password keeps the other keys distinct. */
  lemma {:induction false} WithoutPasswordKeys(data: seq<(Field, string)>)
    requires DistinctKeys(data)
    ensures DistinctKeys(WithoutPassword(data))
  {
    if data != [] {
      WithoutPasswordKeys(data[1..]);
      var rest := WithoutPassword(data[1..]);
      assert forall i :: 0 <= i < |rest| ==> rest[i] in data[1..];
    }
  }

  /** A user object whose fields the update writes in place. */
  class User {
    var email: string
    var username: string
    var passwordHash: string
    var token: string
    var isVerified: bool
    var isActive: bool

    constructor (a: Account)
      ensures Record() == a
    {
      email, username, passwordHash := a.email, a.username, a.passwordHash;
      token, isVerified, isActive := a.token, a.isVerified, a.isActive;
    }

    function Record(): Account
      reads this
    {
      Account(email, username, passwordHash, token, isVerified, isActive)
    }

    /** `UserSerializer.update`; `setPassword` is `set_password`'s
        hashing. */
    method Update(validated: seq<(Field, string)>, setPassword: string -> string)
      modifies this
      ensures Record() == Updated(old(Record()), validated, setPassword)
    {
      var password := PasswordOf(validated);
      var items := WithoutPassword(validated);
      var i := 0;
      while i < |items|
        invariant 0 <= i <= |items|
        invariant Record() == ApplyAll(old(Record()), items[..i])
      {
        assert items[..i + 1][..i] == items[..i];
        var (key, value) := items[i];
        if key == Email {
          email := value;
        } else {
          username := value;
        }
        i := i + 1;
      }
      assert items[..i] == items;
      if password.Some? {
        passwordHash := setPassword(password.value);
      }
    }
  }

  // ------------------------------------------ VerificationSerializer.verify_user

  datatype VerifyError = InvalidToken | UnknownUser | AlreadyVerified
  {
    function Message(): string
    {
      match this
      case InvalidToken => "The token is either invalid. Please login to continue."
      case UnknownUser => "This user does not exist."
      case AlreadyVerified => "The account is already verified."
    }
  }

  const VerifiedMessage := "Your account is verified, continue to login"

  /** `verify_user` over the user table keyed by username; `data` is the
      decoded token payload. */
  function Verify(accounts: map<string, Account>, data: map<string, string>): (r: Result<map<string, Account>, VerifyError>)
    ensures r == Failure(InvalidToken) <==> "username" !in data
    ensures r == Failure(UnknownUser) <==> "username" in data && data["username"] !in accounts
    ensures r == Failure(AlreadyVerified) <==>
      "username" in data && data["username"] in accounts && accounts[data["username"]].isVerified
    ensures r.Success? ==>
      var name := data["username"];
      && name in accounts && !accounts[name].isVerified
      && r.value.Keys == accounts.Keys
      && r.value[name] == accounts[name].(isVerified := true)
      && (forall other :: other in accounts && other != name ==> r.value[other] == accounts[other])
  {
    if "username" !in data then Failure(InvalidToken)
    else
      var name := data["username"];
      if name !in accounts then Failure(UnknownUser)
      else if accounts[name].isVerified then Failure(AlreadyVerified)
      else Success(accounts[name := accounts[name].(isVerified := true)])
  }

  /** Verification is one-shot: once it succeeds, repeating it fails. */
  lemma SecondVerificationFails(accounts: map<string, Account>, data: map<string, string>)
    requires Verify(accounts, data).Success?
    ensures Verify(Verify(accounts, data).value, data) == Failure(AlreadyVerified)
  {
  }

  /** The user table for verification. */
  class UserDirectory {
    var accounts: map<string, Account>

    constructor (accounts: map<string, Account>)
      ensures this.accounts == accounts
    {
      this.accounts := accounts;
    }

    /** `verify_user`: `user.update(is_verified=True)` on success. */
    method VerifyUser(data: map<string, string>) returns (r: Result<string, VerifyError>)
      modifies this
      ensures match Verify(old(accounts), data)
        case Success(next) => r == Success(VerifiedMessage) && accounts == next
        case Failure(e) => r == Failure(e) && accounts == old(accounts)
    {
      if "username" !in data {
        return Failure(InvalidToken);
      }
      var name := data["username"];
      if name !in accounts {
        return Failure(UnknownUser);
      }
      if accounts[name].isVerified {
        return Failure(AlreadyVerified);
      }
      accounts := accounts[name := accounts[name].(isVerified := true)];
      r := Success(VerifiedMessage);
    }
  }
}
