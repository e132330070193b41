/** The Structure component: it owns the transcript and seeds it from
    local storage on mount, guards the suggestion clicks with a processing
    flag, and flips the sidebar and the theme. */
module Structure {
  import opened State
  import opened Text
  import Content
  import Slider

  /** The updater of `toggleTheme`: "light" becomes "dark", anything else
      becomes "light". */
  function NextTheme(theme: string): (r: string)
    ensures r == "light" || r == "dark"
    ensures r == "dark" <==> theme == "light"
  {
    if theme == "light" then "dark" else "light"
  }

  /** Toggling the theme twice gives it back exactly when it was one of the
      two known themes. */
  lemma NextThemeTwice(theme: string)
    ensures NextTheme(NextTheme(theme)) == theme <==> theme == "light" || theme == "dark"
  {
  }

  class Shell {
    const history: History
    const storage: LocalStorage
    const sidebar: Sidebar
    const themes: ThemeContext
    /** The Content child, reached through `contentRef`. */
    const content: Content.Session
    var isLight: bool
    /** `isProcessingRef.current`. */
    var processing: bool

    ghost predicate Valid()
      reads this, content
    {
      content.history == history && content.storage == storage && content.Valid()
    }

    constructor (history: History, storage: LocalStorage, sidebar: Sidebar,
                 themes: ThemeContext, content: Content.Session)
      requires content.history == history && content.storage == storage && content.Valid()
      ensures this.history == history && this.storage == storage && this.sidebar == sidebar
      ensures this.themes == themes && this.content == content
      ensures Valid()
      ensures isLight == (themes.theme == "light") && !processing
    {
      this.history := history;
      this.storage := storage;
      this.sidebar := sidebar;
      this.themes := themes;
      this.content := content;
      isLight := themes.theme == "light";
      processing := false;
    }

    /** The effects of the first render in the order React runs them: the
        child's before the parent's. Content's persistence effect writes the
        still-empty transcript under "chatHistory" first, so the restore
        effect reads back what was just written, and whatever the previous
        page had saved is lost. */
    method MountAsWritten()
      requires Valid()
      modifies history, storage
      ensures history.entries == old(history.entries)
      ensures storage.items == Saved(old(storage.items), old(history.entries))
    {
      content.Persist();
      if ChatHistoryKey in storage.items {
        history.entries := storage.items[ChatHistoryKey];
      }
    }

    /** The mount as intended: the transcript becomes the stored one when
        "chatHistory" is present (and is left as it is otherwise), and the
        persistence effect then writes it back. */
    method Mount()
      requires Valid()
      modifies history, storage
      ensures history.entries == Restored(old(storage.items), old(history.entries))
      ensures storage.items == Saved(old(storage.items), history.entries)
    {
      if ChatHistoryKey in storage.items {
        history.entries := storage.items[ChatHistoryKey];
      }
      content.Persist();
    }

    /** The effect keyed on `theme`: `isLight` follows it. */
    method SyncTheme()
      modifies this
      ensures isLight == (themes.theme == "light")
      ensures processing == old(processing)
    {
      isLight := themes.theme == "light";
    }

    /** `handleToggle`: open or close the sidebar. */
    method Toggle()
      modifies sidebar
      ensures sidebar.isActive == !old(sidebar.isActive)
    {
      sidebar.isActive := !sidebar.isActive;
    }

    /** `toggleTheme`. */
    method ToggleTheme()
      modifies themes
      ensures themes.theme == NextTheme(old(themes.theme))
    {
      themes.theme := NextTheme(themes.theme);
    }

    /** `handleListItemClick`: ignored while the flag is up; otherwise raise
        it, trigger the answer, and lower it again. `triggerAnswer` does not
        wait for the reply, so the flag is down again as soon as the pending
        entry is appended: it never spans an exchange. */
    method ListItemClick(text: string)
      requires Valid()
      modifies this, content, history
      ensures Valid() && processing == old(processing)
      ensures isLight == old(isLight)
      ensures old(processing) ==>
                && history.entries == old(history.entries)
                && content.inputText == old(content.inputText)
                && content.isLoading == old(content.isLoading)
      ensures !old(processing) ==>
                && history.entries == (if AllWhitespace(text) then old(history.entries)
                                       else old(history.entries) + [Entry(text, "")])
                && content.inputText == (if AllWhitespace(text) then text else "")
                && content.isLoading == (!AllWhitespace(text) || old(content.isLoading))
      ensures content.liked == old(content.liked) && content.disliked == old(content.disliked)
      ensures content.notice == old(content.notice) && content.interval == old(content.interval)
    {
      if processing {
        return;
      }
      processing := true;
      var _ := content.TriggerAnswer(text);
      processing := false;
    }
  }

  /** A page that persisted `t`, then a reload over the same storage, with
      the mount as written: the new page always comes up empty, so a
      non-empty saved transcript is never restored. */
  method ReloadAsWritten(t: seq<Entry>) returns (restored: seq<Entry>)
    ensures restored == []
    ensures t != [] ==> restored != t
  {
    var storage := new LocalStorage(map[]);
    var before := new History();
    before.entries := t;
    var page := new Content.Session(before, storage);
    page.Persist();
    var history := new History();
    var session := new Content.Session(history, storage);
    var sidebar := new Sidebar();
    var themes := new ThemeContext("light");
    var shell := new Shell(history, storage, sidebar, themes, session);
    shell.MountAsWritten();
    restored := history.entries;
  }

  /** The same reload with the intended mount: the saved transcript comes
      back exactly. */
  method Reload(t: seq<Entry>) returns (restored: seq<Entry>)
    ensures restored == t
  {
    var storage := new LocalStorage(map[]);
    var before := new History();
    before.entries := t;
    var page := new Content.Session(before, storage);
    page.Persist();
    var history := new History();
    var session := new Content.Session(history, storage);
    var sidebar := new Sidebar();
    var themes := new ThemeContext("light");
    var shell := new Shell(history, storage, sidebar, themes, session);
    shell.Mount();
    restored := history.entries;
  }

  /** One whole exchange on a fresh page: a question is asked, the service
      replies, and the interval runs to its end. The transcript then holds
      exactly that question with the reply stripped of its `*`. */
  method Exchange(question: string, reply: string) returns (entries: seq<Entry>)
    requires !AllWhitespace(question)
    ensures entries == [Entry(question, StripStars(reply))]
  {
    var storage := new LocalStorage(map[]);
    var history := new History();
    var session := new Content.Session(history, storage);
    var sent := session.Answer(question);
    session.Settle(question, Content.Replied(reply));
    ghost var written := session.RevealAll();
    entries := history.entries;
  }

  /** "New chat" does not stop a running reveal: a tick that is still due
      writes the old question and its partial answer over the pending
      entry of the next question. */
  method StaleTickAfterNewChat(first: string, reply: string, second: string) returns (entries: seq<Entry>)
    requires !AllWhitespace(first) && !AllWhitespace(second)
    requires StripStars(reply) != ""
    ensures entries == [Entry(first, StripStars(reply)[..1])]
    ensures entries != [Entry(second, "")]
  {
    var storage := new LocalStorage(map[]);
    var history := new History();
    var sidebar := new Sidebar();
    var session := new Content.Session(history, storage);
    var directory := new Slider.Directory(history, storage, sidebar);
    var sent := session.Answer(first);
    session.Settle(first, Content.Replied(reply));
    ghost var running := session.interval;
    assert running == Some(Content.Interval(first, StripStars(reply), 0));
    directory.NewChat();
    assert session.interval == running && history.entries == [];
    sent := session.Answer(second);
    assert history.entries == [Entry(second, "")];
    session.Tick();
    entries := history.entries;
  }
}
