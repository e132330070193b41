/** The Slider component: the sidebar's local mirror of the saved
    conversations with its confirm-then-commit deletes, resuming a saved
    conversation, starting a new chat, and the user profile shown at the
    bottom. Every remote call is a parameter carrying its outcome. */
module Slider {
  import opened State

  /** A saved conversation as the conversation store lists it; `_id` may be
      missing. */
  datatype Conversation = Conversation(id: Option<string>, question: string, answer: string)

  /** `conv._id` is truthy: present and not the empty string. */
  predicate HasId(c: Conversation) {
    c.id.Some? && c.id.value != ""
  }

  /** `userData`. */
  datatype Profile = Profile(name: string, email: string)

  /** The `user` record of a profile response; either field may be missing. */
  datatype User = User(name: Option<string>, email: Option<string>)

  /** The profile request: it threw, or it answered with `data.success`
      and `data.user` (which may be missing). */
  datatype ProfileReply = ProfileThrew | ProfileAnswered(success: bool, user: Option<User>)

  /** A delete request: it answered with a status, or it threw. */
  datatype DeleteReply = Status(code: int) | Threw

  /** The listing request: it answered with the conversations, or it threw
      (with a 401 status when the session is not authorised). */
  datatype ListReply = Listed(conversations: seq<Conversation>) | ListThrew(status: int)

  const Placeholder: Profile := Profile("User", "No email")
  const DeleteFailed: string := "Failed to delete conversation. Please try again."
  const DeleteAllFailed: string := "Failed to delete all conversations. Please try again."

  /** `v || fallback` on an optional string: a missing or empty value gives way. */
  function OrElse(v: Option<string>, fallback: string): (r: string)
    ensures (v.Some? && v.value != "") ==> r == v.value
    ensures (v.None? || v.value == "") ==> r == fallback
  {
    if v.Some? && v.value != "" then v.value else fallback
  }

  /** The profile after the fetch in `fetchUserData`. A thrown request gives
      the placeholders. A response without `success` changes nothing. A
      successful one takes each field, or its placeholder when the field is
      missing or empty; a missing `user` makes the field access throw, which
      also ends in the placeholders. A fetch that throws or succeeds never
      leaves a field blank. */
  function ProfileAfter(current: Profile, reply: ProfileReply): (p: Profile)
    ensures reply.ProfileThrew? ==> p == Placeholder
    ensures reply.ProfileAnswered? && !reply.success ==> p == current
    ensures reply.ProfileAnswered? && reply.success && reply.user.None? ==> p == Placeholder
    ensures reply.ProfileAnswered? && reply.success && reply.user.Some? ==>
              p == Profile(OrElse(reply.user.value.name, "User"), OrElse(reply.user.value.email, "No email"))
    ensures (reply.ProfileThrew? || reply.success) ==> p.name != "" && p.email != ""
  {
    match reply
    case ProfileThrew => Placeholder
    case ProfileAnswered(success, user) =>
      if !success then current
      else if user.None? then Placeholder
      else Profile(OrElse(user.value.name, "User"), OrElse(user.value.email, "No email"))
  }

  /** `convs.filter(conv => conv._id !== id)`: no conversation carrying
      `id` is left. */
  function Without(convs: seq<Conversation>, id: Option<string>): (r: seq<Conversation>)
    ensures |r| <= |convs|
    ensures forall k :: 0 <= k < |r| ==> r[k].id != id
  {
    if convs == [] then []
    else (if convs[0].id == id then [] else [convs[0]]) + Without(convs[1..], id)
  }

  /** The filter removes exactly the conversations carrying `id`: each
      other conversation is kept as often as it occurred. */
  lemma {:induction false} WithoutCount(convs: seq<Conversation>, id: Option<string>, c: Conversation)
    ensures multiset(Without(convs, id))[c] == if c.id == id then 0 else multiset(convs)[c]
  {
    if convs != [] {
      assert convs == [convs[0]] + convs[1..];
      WithoutCount(convs[1..], id, c);
    }
  }

  /** The filter keeps the order of what it keeps: filtering two pieces is
      filtering the whole. */
  lemma {:induction false} WithoutAppend(a: seq<Conversation>, b: seq<Conversation>, id: Option<string>)
    ensures Without(a + b, id) == Without(a, id) + Without(b, id)
  {
    if a == [] {
      assert a + b == b;
    } else {
      var head := if a[0].id == id then [] else [a[0]];
      assert (a + b)[0] == a[0] && (a + b)[1..] == a[1..] + b;
      calc {
        Without(a + b, id);
        head + Without(a[1..] + b, id);
        { WithoutAppend(a[1..], b, id); }
        head + (Without(a[1..], id) + Without(b, id));
        (head + Without(a[1..], id)) + Without(b, id);
        Without(a, id) + Without(b, id);
      }
    }
  }

  /** A mirror that holds no conversation with `id` is left as it is. */
  lemma {:induction false} WithoutAbsent(convs: seq<Conversation>, id: Option<string>)
    requires forall k :: 0 <= k < |convs| ==> convs[k].id != id
    ensures Without(convs, id) == convs
  {
    if convs != [] {
      WithoutAbsent(convs[1..], id);
    }
  }

  class Directory {
    const history: History
    const storage: LocalStorage
    const sidebar: Sidebar
    var conversations: seq<Conversation>
    var selected: Option<Conversation>
    var showDeletePopup: bool
    var showDeleteAll: bool
    var userData: Profile
    /** The last alert raised, if any. */
    var alert: Option<string>

    constructor (history: History, storage: LocalStorage, sidebar: Sidebar)
      ensures this.history == history && this.storage == storage && this.sidebar == sidebar
      ensures conversations == [] && selected == None
      ensures !showDeletePopup && !showDeleteAll
      ensures userData == Profile("", "") && alert == None
    {
      this.history := history;
      this.storage := storage;
      this.sidebar := sidebar;
      conversations := [];
      selected := None;
      showDeletePopup, showDeleteAll := false, false;
      userData := Profile("", "");
      alert := None;
    }

    /** `handleClose`: closes the sidebar. */
    method Close()
      modifies sidebar
      ensures !sidebar.isActive
    {
      sidebar.isActive := false;
    }

    /** `handleNewChat`: drop the stored transcript, empty the transcript
        and close the sidebar. */
    method NewChat()
      modifies storage, history, sidebar
      ensures storage.items == Removed(old(storage.items))
      ensures history.entries == []
      ensures !sidebar.isActive
    {
      storage.items := storage.items - {ChatHistoryKey};
      history.entries := [];
      sidebar.isActive := false;
    }

    /** `fetchUserData` once its request has settled. */
    method FetchUserData(reply: ProfileReply)
      modifies this
      ensures userData == ProfileAfter(old(userData), reply)
      ensures conversations == old(conversations) && selected == old(selected)
      ensures showDeletePopup == old(showDeletePopup) && showDeleteAll == old(showDeleteAll)
      ensures alert == old(alert)
    {
      match reply
      case ProfileThrew =>
        userData := Placeholder;
      case ProfileAnswered(success, user) =>
        if success {
          if user.None? {
            userData := Placeholder;
          } else {
            userData := Profile(OrElse(user.value.name, "User"), OrElse(user.value.email, "No email"));
          }
        }
    }

    /** `fetchConversations` once its request has settled: a listing
        replaces the mirror; a failure (401 included) leaves it as it was. */
    method FetchConversations(reply: ListReply)
      modifies this
      ensures conversations == if reply.Listed? then reply.conversations else old(conversations)
      ensures selected == old(selected) && userData == old(userData)
      ensures showDeletePopup == old(showDeletePopup) && showDeleteAll == old(showDeleteAll)
      ensures alert == old(alert)
    {
      if reply.Listed? {
        conversations := reply.conversations;
      }
    }

    /** `handleDeleteClick`: select the conversation and ask for confirmation. */
    method DeleteClick(conv: Conversation)
      modifies this
      ensures selected == Some(conv) && showDeletePopup
      ensures conversations == old(conversations) && showDeleteAll == old(showDeleteAll)
      ensures userData == old(userData) && alert == old(alert)
    {
      selected := Some(conv);
      showDeletePopup := true;
    }

    /** The popup's Cancel button and backdrop: close the popup, keeping
        the selection. */
    method CancelDelete()
      modifies this
      ensures !showDeletePopup
      ensures selected == old(selected) && conversations == old(conversations)
      ensures showDeleteAll == old(showDeleteAll) && userData == old(userData) && alert == old(alert)
    {
      showDeletePopup := false;
    }

    /** `handleDelete`, with the outcome of the delete request. Without a
        selected conversation that has an `_id` nothing happens (and no
        request is made). A request that throws raises an alert and changes
        nothing else. A request that answers closes the popup and clears
        the selection; only a 200 removes, from the mirror, exactly the
        conversations with the selected `_id`, the rest keeping their order. */
    method Delete(reply: DeleteReply)
      modifies this
      ensures old(selected).None? || !HasId(old(selected).value) || reply.Threw? ==>
                && conversations == old(conversations)
                && selected == old(selected) && showDeletePopup == old(showDeletePopup)
      ensures alert == if old(selected).Some? && HasId(old(selected).value) && reply.Threw?
                       then Some(DeleteFailed) else old(alert)
      ensures old(selected).Some? && HasId(old(selected).value) && reply.Status? ==>
                && conversations == (if reply.code == 200 then Without(old(conversations), old(selected).value.id)
                                     else old(conversations))
                && selected == None && !showDeletePopup
      ensures showDeleteAll == old(showDeleteAll) && userData == old(userData)
    {
      if selected.None? || !HasId(selected.value) {
        return;
      }
      match reply
      case Threw =>
        alert := Some(DeleteFailed);
      case Status(code) =>
        if code == 200 {
          conversations := Without(conversations, selected.value.id);
        }
        showDeletePopup := false;
        selected := None;
    }

    /** `handleDeleteAllChats`: ask for confirmation. */
    method DeleteAllClick()
      modifies this
      ensures showDeleteAll
      ensures conversations == old(conversations) && selected == old(selected)
      ensures showDeletePopup == old(showDeletePopup) && userData == old(userData) && alert == old(alert)
    {
      showDeleteAll := true;
    }

    /** `confirmDeleteAllChats`, with the outcome of the request. A 200
        empties the mirror and the transcript and closes the popup. A
        request that throws raises an alert; any other status does nothing. */
    method ConfirmDeleteAll(reply: DeleteReply)
      modifies this, history
      ensures reply == Status(200) ==>
                conversations == [] && history.entries == [] && !showDeleteAll
      ensures reply != Status(200) ==>
                && conversations == old(conversations) && history.entries == old(history.entries)
                && showDeleteAll == old(showDeleteAll)
      ensures alert == if reply.Threw? then Some(DeleteAllFailed) else old(alert)
      ensures selected == old(selected) && showDeletePopup == old(showDeletePopup)
      ensures userData == old(userData)
    {
      match reply
      case Threw =>
        alert := Some(DeleteAllFailed);
      case Status(code) =>
        if code == 200 {
          conversations := [];
          history.entries := [];
          showDeleteAll := false;
        }
    }

    /** `cancelDeleteAllChats`: close the confirmation, nothing else. */
    method CancelDeleteAll()
      modifies this
      ensures !showDeleteAll
      ensures conversations == old(conversations) && selected == old(selected)
      ensures showDeletePopup == old(showDeletePopup) && userData == old(userData) && alert == old(alert)
    {
      showDeleteAll := false;
    }

    /** `handleConversationClick`: the transcript becomes exactly the chosen
        conversation's exchange, and the sidebar closes. */
    method ConversationClick(conv: Conversation)
      modifies history, sidebar
      ensures history.entries == [Entry(conv.question, conv.answer)]
      ensures !sidebar.isActive
    {
      history.entries := [Entry(conv.question, conv.answer)];
      sidebar.isActive := false;
    }
  }
}
