/** Registration and login over the account table. */
module Accounts {
  import opened Wrappers
  import opened Entities
  import opened Store

  /** The stored account matches a username/password pair exactly. */
  predicate Matches(a: Account, username: string, password: string) {
    a.username == username && a.password == password
  }

  class AccountService {
    const db: Database

    constructor (db: Database)
      ensures this.db == db
    {
      this.db := db;
    }

    /**
     * Registers a new user. The shape checks (non-blank username, password of at
     * least 4 characters) run first, then the duplicate-username check; only then
     * is the account inserted under a fresh id.
     */
    method Register(account: Account) returns (r: Result<Account, ServiceError>)
      requires db.Valid()
      modifies db
      ensures db.Valid()
      ensures db.messages == old(db.messages)
      ensures |account.username| < 1 ==> r == Err(UserRegistrationException(BlankUsername))
      ensures |account.username| >= 1 && |account.password| < 4 ==>
                r == Err(UserRegistrationException(ShortPassword))
      ensures |account.username| >= 1 && |account.password| >= 4 && old(db.ExistsByUsername(account.username)) ==>
                r == Err(DuplicateUsernameException(DuplicateUsername(account.username)))
      ensures r.Ok? <==>
                |account.username| >= 1 && |account.password| >= 4 && !old(db.ExistsByUsername(account.username))
      ensures r.Err? ==> db.accounts == old(db.accounts)
      ensures r.Ok? ==>
                && r.value.accountId !in old(db.accounts)
                && r.value == account.(accountId := r.value.accountId)
                && db.accounts == old(db.accounts)[r.value.accountId := r.value]
      ensures r.Ok? ==> Login(account) == Ok(r.value)
    {
      if |account.username| < 1 {
        return Err(UserRegistrationException(BlankUsername));
      }
      if |account.password| < 4 {
        return Err(UserRegistrationException(ShortPassword));
      }
      if db.ExistsByUsername(account.username) {
        return Err(DuplicateUsernameException(DuplicateUsername(account.username)));
      }
      var saved := account.(accountId := db.nextAccountId);
      db.accounts := db.accounts[saved.accountId := saved];
      db.nextAccountId := db.nextAccountId + 1;
      r := Ok(saved);
      assert Matches(db.accounts[saved.accountId], account.username, account.password);
    }

    /**
     * Logs in: the stored account whose username and password both equal the
     * supplied pair, or an authentication failure when there is none.
     */
    function Login(credentials: Account): (r: Result<Account, ServiceError>)
      reads db
      requires db.Valid()
      ensures r.Ok? <==>
                exists id :: id in db.accounts && Matches(db.accounts[id], credentials.username, credentials.password)
      ensures r.Ok? ==>
                && r.value.accountId in db.accounts
                && db.accounts[r.value.accountId] == r.value
                && Matches(r.value, credentials.username, credentials.password)
      ensures r.Err? ==> r.error == AuthenticationException(BadCredentials)
    {
      var accounts := db.accounts;
      if exists id :: id in accounts && Matches(accounts[id], credentials.username, credentials.password) then
        var id :| id in accounts && Matches(accounts[id], credentials.username, credentials.password);
        Ok(accounts[id])
      else
        Err(AuthenticationException(BadCredentials))
    }
  }
}
