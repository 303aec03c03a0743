/**
 * The chat composable's state: the message list, the input text, the
 * loading flag, the dialog title and the current dialog id, with the
 * operations that edit them. Message objects are values here; the
 * delayed reply that sendMessage schedules is not part of this model.
 */
module UseChat {
  import opened Common

  datatype Role = UserRole | AssistantRole | SystemRole

  /** A chat message; `timestamp` is in milliseconds, the optional fields are absent until set. */
  datatype Message = Message(
    id: Option<int>,
    role: Role,
    content: string,
    timestamp: int,
    loading: Option<bool>,
    error: Option<bool>,
    imageUrls: Option<seq<string>>)

  /** The three in-place field assignments on one message. */
  datatype Edit = SetContent(content: string) | SetLoading(loading: bool) | SetError(error: bool)

  function Apply(m: Message, e: Edit): Message {
    match e
    case SetContent(c) => m.(content := c)
    case SetLoading(l) => m.(loading := Some(l))
    case SetError(x) => m.(error := Some(x))
  }

  /** `messages[index]` names an element (JavaScript yields undefined for any other index). */
  predicate HasIndex(ms: seq<Message>, index: int) {
    0 <= index < |ms|
  }

  /** The list after an edit guarded by `if (messages[index])`. */
  function Edited(ms: seq<Message>, index: int, e: Edit): seq<Message> {
    if HasIndex(ms, index) then ms[index := Apply(ms[index], e)] else ms
  }

  /** Two messages agree on every field the edit does not assign. */
  predicate AgreeOutside(m1: Message, m2: Message, e: Edit) {
    && m1.id == m2.id && m1.role == m2.role && m1.timestamp == m2.timestamp && m1.imageUrls == m2.imageUrls
    && (!e.SetContent? ==> m1.content == m2.content)
    && (!e.SetLoading? ==> m1.loading == m2.loading)
    && (!e.SetError? ==> m1.error == m2.error)
  }

  /** What the edited field reads afterwards. */
  predicate Carries(m: Message, e: Edit) {
    match e
    case SetContent(c) => m.content == c
    case SetLoading(l) => m.loading == Some(l)
    case SetError(x) => m.error == Some(x)
  }

  /**
   * An edit changes only its own field of its own message, and nothing at
   * all for an index without an element.
   */
  lemma EditedFacts(ms: seq<Message>, index: int, e: Edit)
    ensures var r := Edited(ms, index, e);
      && |r| == |ms|
      && (forall j :: 0 <= j < |ms| && j != index ==> r[j] == ms[j])
      && (HasIndex(ms, index) ==> AgreeOutside(r[index], ms[index], e) && Carries(r[index], e))
      && (!HasIndex(ms, index) ==> r == ms)
  {
  }

  /** Repeating an edit changes nothing more, and edits of different messages commute. */
  lemma EditsCommute(ms: seq<Message>, i: int, j: int, e1: Edit, e2: Edit)
    ensures Edited(Edited(ms, i, e1), i, e1) == Edited(ms, i, e1)
    ensures i != j ==> Edited(Edited(ms, i, e1), j, e2) == Edited(Edited(ms, j, e2), i, e1)
  {
  }

  /** The user message sendMessage appends. */
  function UserMessage(text: string, now: int): Message {
    Message(None, UserRole, text, now, None, None, None)
  }

  /** The assistant placeholder sendMessage appends: empty and loading. */
  function Placeholder(now: int): Message {
    Message(None, AssistantRole, "", now, Some(true), None, None)
  }

  /** The list after sendMessage accepted `text`. */
  function Sent(ms: seq<Message>, text: string, now: int): seq<Message> {
    ms + [UserMessage(text, now), Placeholder(now)]
  }

  /**
   * Sending keeps the list as a prefix and adds exactly two messages: the
   * user's text, then an empty loading assistant message at index old
   * length + 1, the index the delayed reply later edits.
   */
  lemma SentFacts(ms: seq<Message>, text: string, now: int)
    ensures var r := Sent(ms, text, now);
      && |r| == |ms| + 2 && r[..|ms|] == ms
      && r[|ms|].role == UserRole && r[|ms|].content == text
      && r[|ms| + 1].role == AssistantRole && r[|ms| + 1].content == "" && r[|ms| + 1].loading == Some(true)
      && HasIndex(r, |ms| + 1) && !HasIndex(ms, |ms| + 1)
  {
  }

  /** The state useChat returns. */
  class ChatState {
    var messages: seq<Message>
    var inputMessage: string
    var isLoading: bool
    var dialogTitle: string
    var currentDialogId: Option<int>

    constructor ()
      ensures messages == [] && inputMessage == "" && !isLoading && dialogTitle == "" && currentDialogId.None?
    {
      messages := [];
      inputMessage := "";
      isLoading := false;
      dialogTitle := "";
      currentDialogId := None;
    }

    /** addMessage */
    method AddMessage(m: Message)
      modifies this`messages
      ensures messages == old(messages) + [m]
    {
      messages := messages + [m];
    }

    /** updateMessage */
    method UpdateMessage(index: int, content: string)
      modifies this`messages
      ensures messages == Edited(old(messages), index, SetContent(content))
    {
      if 0 <= index < |messages| {
        messages := messages[index := messages[index].(content := content)];
      }
    }

    /** setLoading */
    method SetLoadingAt(index: int, loading: bool)
      modifies this`messages
      ensures messages == Edited(old(messages), index, SetLoading(loading))
    {
      if 0 <= index < |messages| {
        messages := messages[index := messages[index].(loading := Some(loading))];
      }
    }

    /** setError */
    method SetErrorAt(index: int, error: bool)
      modifies this`messages
      ensures messages == Edited(old(messages), index, SetError(error))
    {
      if 0 <= index < |messages| {
        messages := messages[index := messages[index].(error := Some(error))];
      }
    }

    /** setDialogTitle */
    method SetDialogTitle(title: string)
      modifies this`dialogTitle
      ensures dialogTitle == title
    {
      dialogTitle := title;
    }

    /** setCurrentDialogId */
    method SetCurrentDialogId(id: Option<int>)
      modifies this`currentDialogId
      ensures currentDialogId == id
    {
      currentDialogId := id;
    }

    /** clearMessages */
    method ClearMessages()
      modifies this`messages
      ensures messages == []
    {
      messages := [];
    }

    /** clearCurrentSession: no messages, no title, no dialog. */
    method ClearCurrentSession()
      modifies this`messages, this`dialogTitle, this`currentDialogId
      ensures messages == [] && dialogTitle == "" && currentDialogId.None?
    {
      ClearMessages();
      dialogTitle := "";
      currentDialogId := None;
    }

    /**
     * The synchronous part of sendMessage: a blank text changes nothing;
     * otherwise the user message and the placeholder are appended and the
     * loading flag is raised.
     */
    method SendMessage(text: string, now: int)
      modifies this`messages, this`isLoading
      ensures JsTrim(text) == "" ==> messages == old(messages) && isLoading == old(isLoading)
      ensures JsTrim(text) != "" ==> messages == Sent(old(messages), text, now) && isLoading
    {
      if JsTrim(text) == "" {
        return;
      }
      AddMessage(UserMessage(text, now));
      var assistantMessageIndex := |messages|;
      AddMessage(Placeholder(now));
      assert messages[assistantMessageIndex] == Placeholder(now);
      isLoading := true;
    }
  }
}
