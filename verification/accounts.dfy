/**
 * The username/password map and the start-of-session menu of `login`:
 * log in, create an account, or leave.
 */
module Accounts {
  import opened Wrappers

  /** Username to plaintext password. */
  type Accounts = map<string, string>

  /** The one identity allowed to add, update and delete books. */
  const Admin: string := "admin"

  /** The account map when no data file exists yet. */
  const InitialAccounts: Accounts := map[Admin := "password"]

  /**
   * `create_account`: a username already present is refused (and asked for
   * again); any other gets the given password. Nothing existing is touched.
   */
  function CreateAccount(accounts: Accounts, user: string, password: string): (r: Option<Accounts>)
    ensures r.Some? <==> user !in accounts
    ensures r.Some? ==>
      && r.value.Keys == accounts.Keys + {user}
      && r.value[user] == password
      && forall u :: u in accounts ==> r.value[u] == accounts[u]
  {
    if user in accounts then None else Some(accounts[user := password])
  }

  /** The login test: the user is known and the stored password is the one given. */
  function Login(accounts: Accounts, user: string, password: string): (r: Option<string>)
    ensures r.Some? <==> user in accounts && accounts[user] == password
    ensures r.Some? ==> r.value == user
  {
    if user in accounts && accounts[user] == password then Some(user) else None
  }

  /** A freshly created account can log in, and every login that worked before still works the same way. */
  lemma CreateThenLogin(accounts: Accounts, user: string, password: string)
    requires CreateAccount(accounts, user, password).Some?
    ensures var a := CreateAccount(accounts, user, password).value;
      && Login(a, user, password) == Some(user)
      && forall u, p :: u in accounts ==> Login(a, u, p) == Login(accounts, u, p)
  {
  }

  /** With no account file, only `admin` with password `password` gets in. */
  lemma InitialLogin(user: string, password: string)
    ensures Login(InitialAccounts, user, password).Some? <==> user == Admin && password == "password"
  {
  }

  /** A choice at the login menu, with the lines typed after it. */
  datatype LoginChoice =
    | LogIn(user: string, password: string)          // "1"
    | SignUp(user: string, password: string)         // "2"
    | Leave                                          // "3"
    | Unrecognised(choice: string)                   // anything else

  /** Where the login menu stands after one choice. */
  datatype Gate = Pending | LoggedIn(user: string) | Exited

  /**
   * One round of the `login` loop: a good login ends it with the user's
   * identity, choice 3 ends it with none, and everything else returns to
   * the menu, possibly with a new account added.
   */
  function LoginRound(accounts: Accounts, choice: LoginChoice): (r: (Accounts, Gate))
    ensures r.1.LoggedIn? <==> choice.LogIn? && Login(accounts, choice.user, choice.password).Some?
    ensures r.1.LoggedIn? ==> r.1.user == choice.user
    ensures r.1.Exited? <==> choice.Leave?
    ensures r.0 != accounts ==> choice.SignUp? && choice.user !in accounts
    ensures choice.SignUp? && choice.user !in accounts ==> r.0 == accounts[choice.user := choice.password]
  {
    match choice
    case LogIn(user, password) =>
      (accounts, match Login(accounts, user, password) case Some(u) => LoggedIn(u) case None => Pending)
    case SignUp(user, password) =>
      (match CreateAccount(accounts, user, password) case Some(a) => a case None => accounts, Pending)
    case Leave => (accounts, Exited)
    case Unrecognised(_) => (accounts, Pending)
  }
}
