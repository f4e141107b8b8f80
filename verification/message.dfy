/** The chat message record and its SQLite row form (chatbot_backend/app/schema/message.py).
    Identifiers and the timestamp are kept as their canonical text: `str(UUID)` and
    `datetime.isoformat()` are taken to be undone by the parsing the record performs. */
module Message {
  import opened Wrappers

  datatype Message = Message(
    messageId: string,
    conversationId: string,
    userId: string,
    content: string,
    fromUser: bool,
    isError: bool,
    timestamp: string)

  /** A value read from or written to a SQLite column. */
  datatype SqlValue = SqlText(text: string) | SqlInt(number: int)

  type Row = map<string, SqlValue>

  /** The seven columns of a message row. */
  const Columns: set<string> :=
    {"message_id", "conversation_id", "user_id", "content", "from_user", "is_error", "timestamp"}

  /** A record built with only the required fields: both flags take their default, false. */
  function NewMessage(messageId: string, conversationId: string, userId: string, content: string,
                      timestamp: string): (m: Message)
    ensures !m.fromUser && !m.isError
    ensures m.content == content && m.conversationId == conversationId && m.userId == userId
    ensures m.messageId == messageId && m.timestamp == timestamp
  {
    Message(messageId, conversationId, userId, content, false, false, timestamp)
  }

  /** SQLite has no boolean type: true is stored as 1, false as 0. */
  function Flag(b: bool): (v: SqlValue)
    ensures v == SqlInt(1) <==> b
    ensures v == SqlInt(0) <==> !b
  {
    if b then SqlInt(1) else SqlInt(0)
  }

  /** `to_sqlite_dict()`. */
  function ToSqlite(m: Message): (row: Row)
    ensures row.Keys == Columns
    ensures "summary" !in row
    ensures row["from_user"] == SqlInt(1) <==> m.fromUser
    ensures row["is_error"] == SqlInt(1) <==> m.isError
    ensures row["from_user"] in {SqlInt(0), SqlInt(1)} && row["is_error"] in {SqlInt(0), SqlInt(1)}
    ensures row["content"] == SqlText(m.content)
    ensures row["message_id"] == SqlText(m.messageId) && row["timestamp"] == SqlText(m.timestamp)
    ensures row["conversation_id"] == SqlText(m.conversationId) && row["user_id"] == SqlText(m.userId)
  {
    map[
      "message_id" := SqlText(m.messageId),
      "conversation_id" := SqlText(m.conversationId),
      "user_id" := SqlText(m.userId),
      "content" := SqlText(m.content),
      "from_user" := Flag(m.fromUser),
      "is_error" := Flag(m.isError),
      "timestamp" := SqlText(m.timestamp)]
  }

  /** Python's `bool(v)`: a number is true when it is not zero, a text when it is not empty. */
  predicate Truthy(v: SqlValue) {
    match v
    case SqlInt(n) => n != 0
    case SqlText(s) => s != ""
  }

  /** A text column: a number is refused by the record's validation. */
  function TextField(row: Row, key: string): (r: Result<string, string>)
    requires key in row
    ensures r.Success? <==> row[key].SqlText?
  {
    if row[key].SqlText? then Success(row[key].text) else Failure("ValidationError: " + key)
  }

  /** `from_sqlite_dict(data)`: a missing column raises KeyError, a number where text is
      expected fails validation, and the flags go through `bool(...)`. */
  function FromSqlite(row: Row): (r: Result<Message, string>)
    ensures r.Success? <==> Columns <= row.Keys && forall key :: key in Columns - {"from_user", "is_error"} ==> row[key].SqlText?
    ensures r.Success? ==> r.value.fromUser == Truthy(row["from_user"]) && r.value.isError == Truthy(row["is_error"])
    ensures r.Success? ==> SqlText(r.value.content) == row["content"]
  {
    if !(Columns <= row.Keys) then Failure("KeyError")
    else
      var messageId := TextField(row, "message_id");
      var conversationId := TextField(row, "conversation_id");
      var userId := TextField(row, "user_id");
      var content := TextField(row, "content");
      var timestamp := TextField(row, "timestamp");
      if messageId.Failure? then Failure(messageId.error)
      else if conversationId.Failure? then Failure(conversationId.error)
      else if userId.Failure? then Failure(userId.error)
      else if content.Failure? then Failure(content.error)
      else if timestamp.Failure? then Failure(timestamp.error)
      else Success(Message(messageId.value, conversationId.value, userId.value, content.value,
                           Truthy(row["from_user"]), Truthy(row["is_error"]), timestamp.value))
  }

  /** Storing a message and reading it back gives the same message. */
  lemma RoundTrip(m: Message)
    ensures FromSqlite(ToSqlite(m)) == Success(m)
  {
    var row := ToSqlite(m);
    assert row["from_user"] == Flag(m.fromUser) && row["is_error"] == Flag(m.isError);
  }

  /** Any non-zero number in a flag column reads back as true. */
  lemma NonZeroIsTrue(m: Message, fromUser: int, isError: int)
    ensures var row := ToSqlite(m)["from_user" := SqlInt(fromUser)]["is_error" := SqlInt(isError)];
      FromSqlite(row).Success?
      && FromSqlite(row).value.fromUser == (fromUser != 0)
      && FromSqlite(row).value.isError == (isError != 0)
      && FromSqlite(row).value.content == m.content
  {
  }

  /** Reading a row and storing it again gives the row back with its flags normalised to 0
      or 1: nothing but the flag columns changes. */
  lemma ReadThenStore(row: Row)
    requires row.Keys == Columns
    requires FromSqlite(row).Success?
    ensures ToSqlite(FromSqlite(row).value)
      == row["from_user" := Flag(Truthy(row["from_user"]))]["is_error" := Flag(Truthy(row["is_error"]))]
  {
    var m := FromSqlite(row).value;
    var back := ToSqlite(m);
    var expected := row["from_user" := Flag(Truthy(row["from_user"]))]["is_error" := Flag(Truthy(row["is_error"]))];
    assert back.Keys == expected.Keys;
    assert forall key :: key in Columns - {"from_user", "is_error"} ==> row[key].SqlText?;
    forall key | key in Columns
      ensures back[key] == expected[key]
    {
    }
  }
}
