/**
 * The `ConversationManager` class of main.py: an in-memory history that is
 * rewritten in full to the storage file after every change, the prompt built
 * from its most recent messages, and the turn of `generate_response`.
 */
module Manager {
  import opened Conversation

  class ConversationManager {
    /** `self.history` */
    var history: seq<Message>
    /** The contents of the storage file (`dtb.json` by default). */
    var storage: Storage

    /** The storage file holds exactly the in-memory history. */
    predicate Persisted()
      reads this
    {
      storage == Log(history)
    }

    /** `__init__`: start from an empty history and load the file. */
    constructor (disk: Storage)
      ensures storage == disk
      ensures history == Load(disk, [])
      ensures !disk.Log? ==> history == []
    {
      storage := disk;
      history := [];
      new;
      LoadHistory();
    }

    /** `_load_history`: an absent file leaves the history as it was, an
        unreadable one empties it; the file itself is not touched. */
    method LoadHistory()
      modifies this`history
      ensures history == Load(storage, old(history))
    {
      match storage {
        case Absent =>
        case Log(entries) =>
          history := entries;
        case Unreadable =>
          history := [];
      }
    }

    /** `_save_history`: rewrite the whole file from the history. Whatever
        the outcome, the history is kept. */
    method SaveHistory(outcome: SaveOutcome)
      modifies this`storage
      ensures storage == Save(old(storage), history, outcome)
      ensures outcome == Written ==> Persisted()
      ensures outcome == OpenFailed ==> storage == old(storage)
    {
      match outcome {
        case Written =>
          storage := Log(history);
        case OpenFailed =>
        case WriteFailed =>
          storage := Unreadable;
      }
    }

    /** `add_message`: append one record and save. */
    method AddMessage(role: Role, content: string, timestamp: Timestamp, outcome: SaveOutcome)
      modifies this
      ensures history == old(history) + [Message(role, content, timestamp)]
      ensures |history| == |old(history)| + 1 && history[..|old(history)|] == old(history)
      ensures storage == Save(old(storage), history, outcome)
      ensures outcome == Written ==> Persisted()
    {
      history := history + [Message(role, content, timestamp)];
      SaveHistory(outcome);
    }

    /** `delete_all_history`: empty the history and save; doing it twice
        leaves the same empty history. */
    method DeleteAllHistory(outcome: SaveOutcome)
      modifies this
      ensures history == []
      ensures storage == Save(old(storage), [], outcome)
      ensures outcome == Written ==> Persisted()
    {
      history := [];
      SaveHistory(outcome);
    }

    /** `delete_specific_entry`: keep the messages that do not contain the
        keyword, ignoring case, and save. */
    method DeleteSpecificEntry(keyword: string, outcome: SaveOutcome)
      modifies this
      ensures history == KeepUnmatched(old(history), keyword)
      ensures storage == Save(old(storage), history, outcome)
      ensures outcome == Written ==> Persisted()
    {
      history := KeepUnmatched(history, keyword);
      SaveHistory(outcome);
    }

    /** `get_context_prompt`: build the context line by line, then cut it to
        the context window. */
    method GetContextPrompt() returns (prompt: string)
      ensures prompt == ContextPrompt(history)
      ensures |prompt| <= ContextWindow
    {
      var window := Window(history);
      var context := Preamble;
      var rest := window;
      while rest != []
        invariant context + RenderAll(rest) == Preamble + RenderAll(window)
      {
        RenderAfter(context, rest);
        context := context + Render(rest[0]);
        rest := rest[1..];
      }
      context := context + Cue;
      prompt := context[..Min(|context|, ContextWindow)];
    }

    /** `generate_response`: record the user's turn, build the prompt from the
        history that now ends with it, and call the model. A reply is cleaned
        and recorded as the assistant's turn; an exception is turned into an
        error text that is returned but not recorded. */
    method GenerateResponse(userInput: string, model: string -> Inference,
                            userTime: Timestamp, replyTime: Timestamp,
                            userSave: SaveOutcome, replySave: SaveOutcome)
      returns (response: string)
      modifies this
      ensures var asked := old(history) + [Message(User, userInput, userTime)];
              match model(ContextPrompt(asked))
              case Generated(raw) =>
                response == CleanReply(raw)
                && history == asked + [Message(Assistant, response, replyTime)]
                && storage == Save(Save(old(storage), asked, userSave), history, replySave)
              case Raised(error) =>
                response == ErrorReply(error)
                && history == asked
                && storage == Save(old(storage), asked, userSave)
    {
      AddMessage(User, userInput, userTime, userSave);
      var prompt := GetContextPrompt();
      match model(prompt) {
        case Generated(raw) =>
          response := CleanReply(raw);
          AddMessage(Assistant, response, replyTime, replySave);
        case Raised(error) =>
          response := ErrorReply(error);
      }
    }
  }
}
