/**
 * A client of both services that walks the end-to-end flow of the backend
 * (register, duplicate registration, failed and successful login, post,
 * over-long update, delete twice) using nothing but the services' contracts.
 */
module Scenario {
  import opened Wrappers
  import opened Entities
  import opened Store
  import opened Accounts
  import opened Messages

  method RegisterLoginPostFlow(timePosted: int)
  {
    var db := new Database();
    var accountService := new AccountService(db);
    var messageService := new MessageService(db);

    var alice := accountService.Register(Account(0, "alice", "pass1"));
    assert alice.Ok?;
    var aliceId := alice.value.accountId;
    assert db.accounts == map[aliceId := Account(aliceId, "alice", "pass1")];

    var again := accountService.Register(Account(0, "alice", "pass1"));
    assert db.accounts[aliceId].username == "alice";
    assert again == Err(DuplicateUsernameException(DuplicateUsername("alice")));

    var wrong := accountService.Login(Account(0, "alice", "wrong"));
    assert wrong == Err(AuthenticationException(BadCredentials));
    var right := accountService.Login(Account(0, "alice", "pass1"));
    assert right == Ok(Account(aliceId, "alice", "pass1"));

    var posted := messageService.CreateNewMessage(Message(0, aliceId, "hi", timePosted));
    assert posted.Ok?;
    var messageId := posted.value.messageId;

    var tooLong := seq(256, _ => 'a');
    var updated := messageService.UpdateMessage(messageId, tooLong);
    assert updated == Err(MessageCreationException(LongMessage));
    assert messageService.GetMessageById(messageId) == Some(Message(messageId, aliceId, "hi", timePosted));

    var deleted := messageService.DeleteMessageById(messageId);
    assert deleted == Some(1);
    var deletedAgain := messageService.DeleteMessageById(messageId);
    assert deletedAgain == None;
    assert messageService.GetMessagesByAccountId(aliceId) == [];
  }
}
