/** The chat transcript of show_normal_chat in app.py. `st.session_state`
    holds `messages`, `current_input` and `editing_index`; the pencil button
    next to a question starts editing it, and a submission replaces the
    edited question and everything after it by the new question and its
    answer. The chat API (`query_qwen_api`) is the collaborator `ask`, and
    the uploaded picture is already its URL. */
module Chat {
  import opened Common

  datatype Role = User | Assistant

  /** A message of the transcript; only questions carry an image URL. */
  datatype Message = Message(role: Role, content: string, imageUrl: Option<string>)

  const ImageOnly: string := "（仅上传图片）"

  /** `not image_url` is false: a URL came back from the upload. */
  predicate HasImage(imageUrl: Option<string>) {
    imageUrl.Some? && imageUrl.value != ""
  }

  /** The question recorded: the text, or the placeholder for a bare image. */
  function UserContent(info: string): (r: string)
    ensures r != ""
    ensures info != "" ==> r == info
    ensures info == "" ==> r == ImageOnly
  {
    if info == "" then ImageOnly else info
  }

  /** What is kept of the transcript: `del messages[editing_index:]` when
      editing, all of it otherwise. */
  function Kept(messages: seq<Message>, editingIndex: int): (r: seq<Message>)
    ensures r <= messages
    ensures 0 <= editingIndex <= |messages| ==> r == messages[..editingIndex]
    ensures editingIndex == -1 ==> r == messages
  {
    if editingIndex == -1 then messages else PyPrefix(messages, editingIndex)
  }

  /** The transcript after a submission whose answer is `answer`. */
  function SubmitTranscript(messages: seq<Message>, editingIndex: int, info: string,
                            imageUrl: Option<string>, answer: string): seq<Message>
  {
    if info == "" && !HasImage(imageUrl) then messages
    else Kept(messages, editingIndex) + [Message(User, UserContent(info), imageUrl), Message(Assistant, answer, None)]
  }

  /** Questions and answers alternate, starting with a question, and every
      question has its answer. */
  ghost predicate Alternating(messages: seq<Message>) {
    |messages| % 2 == 0 && forall k :: 0 <= k < |messages| ==> messages[k].role == (if k % 2 == 0 then User else Assistant)
  }

  /** An editing index is -1 or the position of a question. */
  ghost predicate EditsQuestion(messages: seq<Message>, editingIndex: int) {
    editingIndex == -1 || (0 <= editingIndex < |messages| && messages[editingIndex].role == User)
  }

  /** A submission adds exactly one question and one answer after the kept
      prefix, and nothing else. */
  lemma SubmitAppendsPair(messages: seq<Message>, editingIndex: int, info: string,
                          imageUrl: Option<string>, answer: string)
    requires info != "" || HasImage(imageUrl)
    ensures var r := SubmitTranscript(messages, editingIndex, info, imageUrl, answer);
      && |r| == |Kept(messages, editingIndex)| + 2
      && r[..|r| - 2] == Kept(messages, editingIndex)
      && r[|r| - 2] == Message(User, UserContent(info), imageUrl)
      && r[|r| - 1] == Message(Assistant, answer, None)
  {
    var r := SubmitTranscript(messages, editingIndex, info, imageUrl, answer);
    assert r[..|r| - 2] == Kept(messages, editingIndex);
  }

  /** Editing the question at `i` replaces it and all that follows it. */
  lemma EditReplacesFromQuestion(messages: seq<Message>, i: nat, info: string,
                                 imageUrl: Option<string>, answer: string)
    requires i < |messages| && (info != "" || HasImage(imageUrl))
    ensures SubmitTranscript(messages, i, info, imageUrl, answer)
         == messages[..i] + [Message(User, UserContent(info), imageUrl), Message(Assistant, answer, None)]
  {
  }

  /** Submitting keeps questions and answers alternating. */
  lemma SubmitKeepsAlternating(messages: seq<Message>, editingIndex: int, info: string,
                               imageUrl: Option<string>, answer: string)
    requires Alternating(messages) && EditsQuestion(messages, editingIndex)
    ensures Alternating(SubmitTranscript(messages, editingIndex, info, imageUrl, answer))
  {
    if info != "" || HasImage(imageUrl) {
      var kept := Kept(messages, editingIndex);
      var r := SubmitTranscript(messages, editingIndex, info, imageUrl, answer);
      assert |kept| % 2 == 0 by {
        if editingIndex != -1 {
          assert messages[editingIndex].role == User;
        }
      }
      forall k | 0 <= k < |r| ensures r[k].role == (if k % 2 == 0 then User else Assistant) {
        if k < |kept| {
          assert r[k] == messages[k];
        }
      }
    }
  }

  class ChatSession {
    var messages: seq<Message>
    var currentInput: string
    var editingIndex: int

    /** The transcript alternates and the editing index, if any, is a question. */
    ghost predicate Valid()
      reads this
    {
      Alternating(messages) && EditsQuestion(messages, editingIndex)
    }

    /** The session defaults set when the page first loads. */
    constructor ()
      ensures messages == [] && currentInput == "" && editingIndex == -1
      ensures Valid()
    {
      messages := [];
      currentInput := "";
      editingIndex := -1;
    }

    /** The pencil button beside the question at `index`: its text goes back
        into the input box and the question is marked for editing. */
    method Edit(index: nat)
      requires index < |messages| && messages[index].role == User
      requires Valid()
      modifies this
      ensures messages == old(messages)
      ensures currentInput == old(messages)[index].content && editingIndex == index
      ensures Valid()
    {
      currentInput := messages[index].content;
      editingIndex := index;
    }

    /** The submit button: with neither text nor picture nothing changes;
        otherwise the kept transcript gains the question and `ask`'s answer,
        editing ends and the input box is cleared. */
    method Submit(info: string, imageUrl: Option<string>, ask: (string, Option<string>) -> string)
      requires Valid()
      modifies this
      ensures info == "" && !HasImage(imageUrl) ==>
                messages == old(messages) && currentInput == old(currentInput) && editingIndex == old(editingIndex)
      ensures messages == SubmitTranscript(old(messages), old(editingIndex), info, imageUrl,
                                           ask(UserContent(info), imageUrl))
      ensures (info != "" || HasImage(imageUrl)) ==> editingIndex == -1 && currentInput == ""
      ensures Valid()
    {
      if info == "" && !HasImage(imageUrl) {
        return;
      }
      ghost var before := messages;
      ghost var index := editingIndex;
      if editingIndex != -1 {
        messages := messages[..editingIndex];
        editingIndex := -1;
      }
      var userContent := if info != "" then info else ImageOnly;
      messages := messages + [Message(User, userContent, imageUrl)];
      var answer := ask(userContent, imageUrl);
      messages := messages + [Message(Assistant, answer, None)];
      currentInput := "";
      SubmitKeepsAlternating(before, index, info, imageUrl, answer);
    }
  }
}
