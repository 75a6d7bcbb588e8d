/**
 * The keyed store both services work against: the account table and the message
 * table, each with the identity counter that hands out primary keys on insert.
 */
module Store {
  import opened Entities

  /** Every stored username is non-blank. */
  predicate UsernamesNonBlank(accounts: map<int, Account>) {
    forall id :: id in accounts ==> |accounts[id].username| >= 1
  }

  /** No two stored accounts share a username. */
  predicate UsernamesUnique(accounts: map<int, Account>) {
    forall a, b :: a in accounts && b in accounts && accounts[a].username == accounts[b].username ==> a == b
  }

  /** Every stored message has a text of 1 to 255 characters. */
  predicate TextsWellSized(messages: map<int, Message>) {
    forall id :: id in messages ==> 1 <= |messages[id].messageText| <= MaxMessageLength
  }

  /** Every stored message names an existing account as its poster. */
  predicate PostersExist(messages: map<int, Message>, accounts: map<int, Account>) {
    forall id :: id in messages ==> messages[id].postedBy in accounts
  }

  class Database {
    var accounts: map<int, Account>
    var messages: map<int, Message>
    // Identity generators: the next primary key each table hands out.
    var nextAccountId: int
    var nextMessageId: int

    /** Rows sit under their own ids, ids are below the generators, and the domain invariants hold. */
    ghost predicate Valid()
      reads this
    {
      && (forall id :: id in accounts ==> id < nextAccountId && accounts[id].accountId == id)
      && (forall id :: id in messages ==> id < nextMessageId && messages[id].messageId == id)
      && UsernamesNonBlank(accounts)
      && UsernamesUnique(accounts)
      && TextsWellSized(messages)
      && PostersExist(messages, accounts)
    }

    constructor ()
      ensures Valid()
      ensures accounts == map[] && messages == map[]
    {
      accounts, messages := map[], map[];
      nextAccountId, nextMessageId := 1, 1;
    }

    /** The derived query `existsByUsername`. */
    predicate ExistsByUsername(username: string)
      reads this
    {
      exists id :: id in accounts && accounts[id].username == username
    }
  }
}
