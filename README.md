# Social-media backend service layer, in Dafny

This project models the two service classes of a small social-media backend.
`AccountService` registers and logs in users. `MessageService` creates, lists,
reads, updates and deletes messages. Both work against one keyed store made of
two tables, modelled as maps: `accounts: map<int, Account>` and
`messages: map<int, Message>`.

Modules:

- `Wrappers`: `Option` stands for a nullable or `Optional` return. `Result` and `Outcome` stand for a value or a thrown checked exception.
- `Entities`: the `Account` and `Message` records, the four exception classes as `ServiceError`, and their message texts verbatim.
- `Store`: the `Database` class. It holds the two tables and one identity counter per table. Its `Valid()` invariant says:
  - every row sits under its own id, and that id is below the counter;
  - usernames are non-blank and unique;
  - every message text has 1 to 255 characters;
  - every message's poster is an existing account.
- `Tables`: a table scan that lists rows in ascending primary-key order. `findAll`-style queries use it.
- `Accounts`: the `AccountService` class, with `Register` (a method that changes the account table) and `Login` (a read-only function).
- `Messages`: the `MessageService` class. `CreateNewMessage`, `DeleteMessageById` and `UpdateMessage` are methods that change the message table. `VerifyMessageLength`, `GetAllMessages`, `GetMessageById` and `GetMessagesByAccountId` are read-only functions.
- `Scenario`: a client that uses only the contracts to prove the end-to-end flow. The flow is: register alice, fail to register her again, fail and then succeed to log in, post, fail an over-long update, delete twice.

Each service holds the store as `const db: Database`, the injected repositories.
Each mutating method `modifies db`. It keeps `db.Valid()`, says that the other
table is unchanged, and states the whole new table in terms of the old one.
The order of the checks is part of each contract:

- `Register` runs the blank-username check, then the short-password check, then the duplicate-username check.
- `CreateNewMessage` runs the length check, then the poster check.
- `UpdateMessage` runs the length check, then the id lookup.

A failure changes nothing.

Cross-operation properties are stated in the method contracts:

- a freshly registered account can log in with the same pair;
- a created message can be read back by id and appears in its poster's list;
- an updated message reads back with the new text only;
- a deleted id reads back as absent.

The code and its documentation differ in three places. The model follows the code.

- The registration error text says the password "must be longer than 4 characters". The code accepts a password of exactly 4 characters, and so does `Register`.
- A comment in the message service says the length must be "between 0-255". The code rejects the empty text, so the accepted range is 1 to 255.
- The doc comment of `updateMessage` says it returns 1 or null. The code throws a message-creation error ("message_id invalid") when the id is not stored, and so does `UpdateMessage`.

## Model

| member | source | states |
|---|---|---|
| `Accounts.AccountService.Register` | src/main/java/com/example/service/AccountService.java:30-39 | A blank username fails with a registration error. Otherwise a password under 4 characters fails with a registration error, so length 4 passes. Otherwise an existing username fails with a duplicate-username error. Success happens exactly when all three checks pass. It inserts the candidate under a fresh id and returns that record, and the same pair then logs in to it. A failure leaves the account table unchanged. The message table is never touched. Unique and non-blank usernames are preserved. |
| `Accounts.AccountService.Login` | src/main/java/com/example/service/AccountService.java:47-53 | Succeeds exactly when some stored account has this username and this password. It then returns that stored account, under its own id. Otherwise it fails with the authentication error. As a function it cannot change the store. |
| `Messages.MessageService.VerifyMessageLength` | src/main/java/com/example/service/MessageService.java:111-117 | Passes exactly when the text has 1 to 255 characters. An empty text fails with "Message cannot be blank". A text over 255 characters fails with the too-long error. |
| `Messages.MessageService.CreateNewMessage` | src/main/java/com/example/service/MessageService.java:32-40 | A bad length fails with the length error, even when the poster is also bad. Otherwise a poster that is not a stored account id fails with the invalid-poster error. Success happens exactly when both checks pass. It stores the message, unchanged except for its new fresh id, and returns it. The message can then be read by id and is listed for its poster. A failure leaves the message table unchanged. The account table is never touched. |
| `Messages.MessageService.GetAllMessages` | src/main/java/com/example/service/MessageService.java:46-48 | Lists every stored message exactly once and nothing else, in ascending id order. Every listed text has 1 to 255 characters. The list is empty when the table is. |
| `Messages.MessageService.GetMessageById` | src/main/java/com/example/service/MessageService.java:55-60 | Present exactly when the id is stored. It then returns that row, whose id is the one asked for and whose text has 1 to 255 characters. Otherwise it returns absence, not an error. |
| `Messages.MessageService.DeleteMessageById` | src/main/java/com/example/service/MessageService.java:67-74 | Reports one row affected exactly when the id was stored, and absence otherwise. The new table is the old one without that id, so every other message is untouched. An absent id changes nothing. Afterwards a read by that id is absent. The account table is never touched. |
| `Messages.MessageService.UpdateMessage` | src/main/java/com/example/service/MessageService.java:83-97 | A bad length fails before any lookup and changes nothing. Otherwise an id that is not stored fails with the invalid-id error and changes nothing. Success happens exactly when the length is valid and the id is stored. It returns 1 and changes only that message's text, keeping its poster, its timestamp and every other message. |
| `Messages.MessageService.GetMessagesByAccountId` | src/main/java/com/example/service/MessageService.java:103-105 | Lists exactly the stored messages whose poster is the account id, in ascending id order and without repeats. Every listed text has 1 to 255 characters. The list is empty when the account has posted nothing. |
| `Messages.PostedBy` | src/main/java/com/example/service/MessageService.java:104 | The `findAllByPostedBy` filter keeps exactly the messages of a list that have the given poster and drops every other message. It never lengthens the list, and it keeps an ascending list ascending. |
| `Messages.PostedByKeepsCounts` | src/main/java/com/example/service/MessageService.java:104 | The filter keeps each message with the given poster as many times as the list holds it, and keeps no other message. |

## Left out

- The HTTP controller is not modelled: routing, response wrapping, and the mapping of each exception class to a status code. It is framework glue.
- Entity and exception classes (`Account.java`, `Message.java`, `exception/*`) are not part of this model. The record fields come from three sources:
  - `username`, `password`, `messageText` and `postedBy` come from the accessors the services call.
  - `accountId` and `messageId` come from the services' doc comments, which say that a saved record carries a "newly created accountId" or "messageId".
  - `timePostedEpoch` appears nowhere in the service code. It is the model's name for the message timestamp, which the services carry through unchanged and never read.
- Saving a record with an id: `save` always inserts under a fresh id from the table's counter, and any id the caller supplies is ignored. A JPA merge of an entity whose id is already stored is not modelled.
- Identity generation is modelled as a counter. Id and counter overflow of Java `int` is not modelled, and neither is the `long` width of the timestamp.
- `Messages.MessageService.GetAllMessages`: the source promises no order. The model lists rows in ascending id order, which is one order the store may return.
- `Messages.MessageService.GetMessagesByAccountId`: the same ascending-id order is a model choice, as above.
- `Accounts.AccountService.Login` relies on usernames being unique, as the store's derived query does. It is not modelled for a table in which two accounts match, where the query would raise an error.
- The debug print of the text in `updateMessage` is console output and is left out.
- Null request fields are not modelled: a null text or username would throw a `NullPointerException`. Text is a `seq<char>`, standing in for Java's UTF-16 units.
- Concurrency is not modelled: two concurrent registrations of one username can both pass the duplicate check. Each call is atomic here.
- Store-level failures, such as a lost connection or a constraint violation raised by the database, are not modelled.
