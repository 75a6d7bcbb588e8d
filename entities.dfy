/**
 * The two persisted entities of the social-media backend, and the checked
 * exceptions its services throw, each carrying the message text it is built with.
 */
module Entities {

  /** A registered user: the `account` table row. */
  datatype Account = Account(accountId: int, username: string, password: string)

  /** A post: the `message` table row. `timePostedEpoch` is opaque and never checked. */
  datatype Message = Message(messageId: int, postedBy: int, messageText: string, timePostedEpoch: int)

  /** The four exception classes the services throw. */
  datatype ServiceError =
    | UserRegistrationException(message: string)
    | DuplicateUsernameException(message: string)
    | AuthenticationException(message: string)
    | MessageCreationException(message: string)

  // Exception texts, as the services build them.
  const BlankUsername := "Username cannot be blank"
  const ShortPassword := "Password must be longer than 4 characters"
  const BadCredentials := "Username or password incorrect"
  const BlankMessage := "Message cannot be blank"
  const LongMessage := "Message cannot be longer than 255 characters"
  const InvalidPostedBy := "Invalid posted_by id"
  const InvalidMessageId := "message_id invalid"

  function DuplicateUsername(username: string): string {
    "Account with username " + username + " already exists"
  }

  /** The largest message text the services accept, in characters. */
  const MaxMessageLength := 255
}
