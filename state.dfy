/** State shared by the chat screen's components: the transcript that
    Structure owns and hands to Content and Slider, the browser's local
    storage, the sidebar flag owned by Chat, and the theme context. */
module State {

  datatype Option<+T> = None | Some(value: T)

  /** One question/answer exchange, an element of `answerHistory`. */
  datatype Entry = Entry(question: string, answer: string)

  /** The local-storage key under which the transcript is persisted. */
  const ChatHistoryKey: string := "chatHistory"

  /** The transcript (`answerHistory`), written through `setAnswerHistory`
      by Structure, Content and Slider alike. */
  class History {
    var entries: seq<Entry>

    constructor ()
      ensures entries == []
    {
      entries := [];
    }
  }

  /** `localStorage`, holding already-parsed transcripts rather than JSON text. */
  class LocalStorage {
    var items: map<string, seq<Entry>>

    constructor (items: map<string, seq<Entry>>)
      ensures this.items == items
    {
      this.items := items;
    }
  }

  /** The `isActive` flag (sidebar open) that Chat owns and passes down. */
  class Sidebar {
    var isActive: bool

    constructor ()
      ensures !isActive
    {
      isActive := false;
    }
  }

  /** The theme context: `theme` and its setter. */
  class ThemeContext {
    var theme: string

    constructor (theme: string)
      ensures this.theme == theme
    {
      this.theme := theme;
    }
  }

  /** The storage after `setItem(ChatHistoryKey, entries)`: only that key
      changes, and it holds exactly `entries`. */
  function Saved(items: map<string, seq<Entry>>, entries: seq<Entry>): (r: map<string, seq<Entry>>)
    ensures ChatHistoryKey in r && r[ChatHistoryKey] == entries
    ensures r.Keys == items.Keys + {ChatHistoryKey}
    ensures forall k :: k in items && k != ChatHistoryKey ==> r[k] == items[k]
  {
    items[ChatHistoryKey := entries]
  }

  /** The storage after `removeItem(ChatHistoryKey)`. */
  function Removed(items: map<string, seq<Entry>>): (r: map<string, seq<Entry>>)
    ensures ChatHistoryKey !in r
    ensures r.Keys == items.Keys - {ChatHistoryKey}
    ensures forall k :: k in r ==> r[k] == items[k]
  {
    items - {ChatHistoryKey}
  }

  /** The transcript the restore effect leaves: the stored one when the key
      is present, otherwise the current one. */
  function Restored(items: map<string, seq<Entry>>, current: seq<Entry>): (r: seq<Entry>)
  {
    if ChatHistoryKey in items then items[ChatHistoryKey] else current
  }

  /** Persisting and then restoring gives back the persisted transcript,
      whatever the storage held before and whatever is on screen. */
  lemma RestoreSaved(items: map<string, seq<Entry>>, t: seq<Entry>, current: seq<Entry>)
    ensures Restored(Saved(items, t), current) == t
  {
  }

  /** After a removal, restoring keeps what is on screen. */
  lemma RestoreRemoved(items: map<string, seq<Entry>>, current: seq<Entry>)
    ensures Restored(Removed(items), current) == current
  {
  }
}
