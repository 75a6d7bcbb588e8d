/** Message create, read, update and delete over the message table, checked against the account table. */
module Messages {
  import opened Wrappers
  import opened Entities
  import opened Tables
  import opened Store

  /** A list of messages in strictly ascending id order (so without repeats). */
  predicate IdsAscending(ms: seq<Message>) {
    forall i, j :: 0 <= i < j < |ms| ==> ms[i].messageId < ms[j].messageId
  }

  /** Every message of a list has a text of 1 to 255 characters. */
  predicate TextsInRange(ms: seq<Message>) {
    forall i :: 0 <= i < |ms| ==> 1 <= |ms[i].messageText| <= MaxMessageLength
  }

  /** The messages of a list whose poster is `accountId`. */
  function PostedBy(ms: seq<Message>, accountId: int): (r: seq<Message>)
    ensures |r| <= |ms|
    ensures forall m :: m in r <==> m in ms && m.postedBy == accountId
    ensures IdsAscending(ms) ==> IdsAscending(r)
  {
    if ms == [] then []
    else
      var rest := PostedBy(ms[1..], accountId);
      assert forall m :: m in ms <==> m == ms[0] || m in ms[1..];
      if ms[0].postedBy == accountId then
        assert IdsAscending(ms) ==> IdsAscending([ms[0]] + rest) by {
          if IdsAscending(ms) {
            FirstIdBelowRest(ms, rest);
          }
        }
        [ms[0]] + rest
      else
        rest
  }

  /** The filter keeps each message with the given poster as often as the list holds it, and no other message. */
  lemma {:induction false} PostedByKeepsCounts(ms: seq<Message>, accountId: int, m: Message)
    ensures multiset(PostedBy(ms, accountId))[m] == if m.postedBy == accountId then multiset(ms)[m] else 0
  {
    if ms != [] {
      PostedByKeepsCounts(ms[1..], accountId, m);
      assert ms == [ms[0]] + ms[1..];
      assert multiset(ms) == multiset{ms[0]} + multiset(ms[1..]);
      var rest := PostedBy(ms[1..], accountId);
      if ms[0].postedBy == accountId {
        assert PostedBy(ms, accountId) == [ms[0]] + rest;
        assert multiset([ms[0]] + rest) == multiset{ms[0]} + multiset(rest);
      }
    }
  }

  /** In an ascending list, the head's id is below that of every message drawn from its tail. */
  lemma FirstIdBelowRest(ms: seq<Message>, rest: seq<Message>)
    requires ms != [] && IdsAscending(ms) && IdsAscending(rest)
    requires forall m :: m in rest ==> m in ms[1..]
    ensures IdsAscending([ms[0]] + rest)
  {
    forall k | 0 <= k < |rest|
      ensures ms[0].messageId < rest[k].messageId
    {
      assert rest[k] in ms[1..];
      var j :| 0 <= j < |ms[1..]| && ms[1..][j] == rest[k];
      assert ms[j + 1] == rest[k];
    }
    var s := [ms[0]] + rest;
    forall i, j | 0 <= i < j < |s|
      ensures s[i].messageId < s[j].messageId
    {
      if i == 0 {
        assert s[j] == rest[j - 1];
      } else {
        assert s[i] == rest[i - 1] && s[j] == rest[j - 1];
      }
    }
  }

  class MessageService {
    const db: Database

    constructor (db: Database)
      ensures this.db == db
    {
      this.db := db;
    }

    /** Passes exactly when the text has 1 to 255 characters; a blank text is reported before a long one. */
    static function VerifyMessageLength(messageText: string): (r: Outcome<ServiceError>)
      ensures r.Pass? <==> 1 <= |messageText| <= MaxMessageLength
      ensures |messageText| == 0 ==> r == Fail(MessageCreationException(BlankMessage))
      ensures |messageText| > MaxMessageLength ==> r == Fail(MessageCreationException(LongMessage))
    {
      if |messageText| == 0 then Fail(MessageCreationException(BlankMessage))
      else if |messageText| > MaxMessageLength then Fail(MessageCreationException(LongMessage))
      else Pass
    }

    /**
     * Creates a message. The length check runs first, then the poster check; on
     * success the message is stored under a fresh id and returned.
     */
    method CreateNewMessage(transientMessage: Message) returns (r: Result<Message, ServiceError>)
      requires db.Valid()
      modifies db
      ensures db.Valid()
      ensures db.accounts == old(db.accounts)
      ensures VerifyMessageLength(transientMessage.messageText).Fail? ==>
                r == Err(VerifyMessageLength(transientMessage.messageText).error)
      ensures VerifyMessageLength(transientMessage.messageText).Pass? && transientMessage.postedBy !in db.accounts ==>
                r == Err(MessageCreationException(InvalidPostedBy))
      ensures r.Ok? <==>
                1 <= |transientMessage.messageText| <= MaxMessageLength && transientMessage.postedBy in db.accounts
      ensures r.Err? ==> db.messages == old(db.messages)
      ensures r.Ok? ==>
                && r.value.messageId !in old(db.messages)
                && r.value == transientMessage.(messageId := r.value.messageId)
                && db.messages == old(db.messages)[r.value.messageId := r.value]
      ensures r.Ok? ==> GetMessageById(r.value.messageId) == Some(r.value)
      ensures r.Ok? ==> r.value in GetMessagesByAccountId(transientMessage.postedBy)
    {
      var check := VerifyMessageLength(transientMessage.messageText);
      if check.Fail? {
        return Err(check.error);
      }
      if transientMessage.postedBy !in db.accounts {
        return Err(MessageCreationException(InvalidPostedBy));
      }
      var saved := transientMessage.(messageId := db.nextMessageId);
      db.messages := db.messages[saved.messageId := saved];
      db.nextMessageId := db.nextMessageId + 1;
      r := Ok(saved);
      RowsListTable(db.messages, saved);
    }

    /** Every stored message, each once, in ascending id order; empty when there are none. */
    function GetAllMessages(): (r: seq<Message>)
      reads db
      requires db.Valid()
      ensures |r| == |db.messages|
      ensures forall m :: m in r <==> m in db.messages.Values
      ensures IdsAscending(r)
      ensures TextsInRange(r)
    {
      var r := Rows(db.messages);
      assert forall m :: m in r <==> m in db.messages.Values by {
        forall m
          ensures m in r <==> m in db.messages.Values
        {
          RowsListTable(db.messages, m);
        }
      }
      r
    }

    /** The message stored under `id`, or absence (Java's null) when there is none. */
    function GetMessageById(id: int): (r: Option<Message>)
      reads db
      requires db.Valid()
      ensures r.Some? <==> id in db.messages
      ensures r.Some? ==> r.value == db.messages[id] && r.value.messageId == id
      ensures r.Some? ==> 1 <= |r.value.messageText| <= MaxMessageLength
    {
      if id in db.messages then Some(db.messages[id]) else None
    }

    /**
     * Deletes the message under `id`: one row affected when it was there,
     * absence (not an error) and no change when it was not.
     */
    method DeleteMessageById(id: int) returns (rows: Option<int>)
      requires db.Valid()
      modifies db
      ensures db.Valid()
      ensures db.accounts == old(db.accounts)
      ensures rows.Some? <==> id in old(db.messages)
      ensures rows.Some? ==> rows.value == 1
      ensures db.messages == old(db.messages) - {id}
      ensures GetMessageById(id) == None
    {
      var found := GetMessageById(id);
      if found.Some? {
        db.messages := db.messages - {id};
        return Some(1);
      }
      return None;
    }

    /**
     * Replaces the text of the message under `id`. The length check runs before
     * the lookup; a missing id is an error, unlike in get and delete.
     */
    method UpdateMessage(id: int, messageText: string) returns (r: Result<int, ServiceError>)
      requires db.Valid()
      modifies db
      ensures db.Valid()
      ensures db.accounts == old(db.accounts)
      ensures VerifyMessageLength(messageText).Fail? ==> r == Err(VerifyMessageLength(messageText).error)
      ensures VerifyMessageLength(messageText).Pass? && id !in old(db.messages) ==>
                r == Err(MessageCreationException(InvalidMessageId))
      ensures r.Ok? <==> 1 <= |messageText| <= MaxMessageLength && id in old(db.messages)
      ensures r.Err? ==> db.messages == old(db.messages)
      ensures r.Ok? ==>
                && r.value == 1
                && db.messages == old(db.messages)[id := old(db.messages)[id].(messageText := messageText)]
      ensures r.Ok? ==> GetMessageById(id) == Some(old(db.messages)[id].(messageText := messageText))
    {
      var check := VerifyMessageLength(messageText);
      if check.Fail? {
        return Err(check.error);
      }
      var found := GetMessageById(id);
      if found.Some? {
        var message := found.value.(messageText := messageText);
        db.messages := db.messages[id := message];
        return Ok(1);
      }
      return Err(MessageCreationException(InvalidMessageId));
    }

    /** Exactly the stored messages posted by `accountId`, in ascending id order; empty when there are none. */
    function GetMessagesByAccountId(accountId: int): (r: seq<Message>)
      reads db
      requires db.Valid()
      ensures forall m :: m in r <==> m in db.messages.Values && m.postedBy == accountId
      ensures IdsAscending(r)
      ensures TextsInRange(r)
      ensures (forall id :: id in db.messages ==> db.messages[id].postedBy != accountId) ==> r == []
    {
      var all := GetAllMessages();
      var r := PostedBy(all, accountId);
      assert TextsInRange(r) by {
        forall i | 0 <= i < |r|
          ensures 1 <= |r[i].messageText| <= MaxMessageLength
        {
          assert r[i] in all;
        }
      }
      assert r != [] ==> exists id :: id in db.messages && db.messages[id] == r[0];
      r
    }
  }
}
