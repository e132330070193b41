/** The Content component: submitting a question, settling the answering
    service's reply, the typewriter reveal driven by an interval, the
    like/dislike sets, the copy notice, and the effect that writes the
    transcript to local storage on every change. */
module Content {
  import opened State
  import opened Text

  /** The answer shown when the answering service fails. */
  const ErrorAnswer: string := "Error fetching data. Please try again."

  /** The text of the notice raised by a copy. */
  const CopiedText: string := "Text copied to clipboard successfully!"

  /** What the answering service did with a question: replied with a text,
      or threw (transport error, or a reply of the wrong shape). */
  datatype Reply = Replied(text: string) | Failed

  /** What a running reveal interval has captured: the question, the
      stripped answer and its counter `i`. */
  datatype Interval = Interval(question: string, text: string, i: nat)

  /** `copyNotification`. */
  datatype Notice = Notice(show: bool, text: string)

  /** `h[h.length - 1] = e` on a copy of the transcript. On an empty
      transcript JavaScript stores `e` under the property "-1", which is not
      an element, so the transcript stays empty. */
  function ReplaceLast(entries: seq<Entry>, e: Entry): (r: seq<Entry>)
    ensures |r| == |entries|
    ensures forall k :: 0 <= k < |entries| - 1 ==> r[k] == entries[k]
    ensures entries != [] ==> r[|r| - 1] == e
  {
    if entries == [] then entries else entries[..|entries| - 1] + [e]
  }

  /** A second overwrite of the last entry wins over the first. */
  lemma ReplaceLastTwice(entries: seq<Entry>, e1: Entry, e2: Entry)
    ensures ReplaceLast(ReplaceLast(entries, e1), e2) == ReplaceLast(entries, e2)
  {
  }

  /** The transcripts after the first `n` ticks of a reveal of `t` from
      counter `i`, started on `entries` for `question`: one more tick
      appends one more transcript. */
  ghost function Ticks(entries: seq<Entry>, question: string, t: string, i: nat, n: nat): (r: seq<seq<Entry>>)
    ensures |r| == n
  {
    if n == 0 then []
    else Ticks(entries, question, t, i, n - 1) + [ReplaceLast(entries, Entry(question, Take(t, i + n)))]
  }

  /** One more tick, applied to the transcript the trace ends with (or to
      the starting one before the first tick), extends the trace by the
      transcript it writes. */
  lemma TicksStep(entries: seq<Entry>, question: string, t: string, i: nat, n: nat,
                  trace: seq<seq<Entry>>, current: seq<Entry>)
    requires trace == Ticks(entries, question, t, i, n)
    requires current == if n == 0 then entries else trace[n - 1]
    ensures trace + [ReplaceLast(current, Entry(question, Take(t, i + n + 1)))]
         == Ticks(entries, question, t, i, n + 1)
  {
    if n > 0 {
      ReplaceLastTwice(entries, Entry(question, Take(t, i + n)), Entry(question, Take(t, i + n + 1)));
    }
  }

  /** A reveal from counter `i` runs the remaining `n` ticks, and tick `k`
      writes frame `i + k` into the last entry. */
  lemma TicksFrames(entries: seq<Entry>, question: string, t: string, i: nat, n: nat)
    requires i + n == TickCount(t)
    ensures forall k :: 0 <= k < n ==>
              Ticks(entries, question, t, i, n)[k] == ReplaceLast(entries, Entry(question, Frames(t)[i + k]))
  {
    TicksAt(entries, question, t, i, n);
    forall k | 0 <= k < n
      ensures Ticks(entries, question, t, i, n)[k] == ReplaceLast(entries, Entry(question, Frames(t)[i + k]))
    {
      FrameAt(t, i + k);
    }
  }

  /** Tick `k` writes the first `i + k + 1` characters. */
  lemma {:induction false} TicksAt(entries: seq<Entry>, question: string, t: string, i: nat, n: nat)
    ensures forall k :: 0 <= k < n ==>
              Ticks(entries, question, t, i, n)[k] == ReplaceLast(entries, Entry(question, Take(t, i + k + 1)))
  {
    if n > 0 {
      TicksAt(entries, question, t, i, n - 1);
      var r, p := Ticks(entries, question, t, i, n), Ticks(entries, question, t, i, n - 1);
      forall k | 0 <= k < |r|
        ensures r[k] == ReplaceLast(entries, Entry(question, Take(t, i + k + 1)))
      {
        if k < n - 1 {
          assert r[k] == p[k];
        }
      }
    }
  }

  // ---------------------------------------------------------------------
  // Reactions
  // ---------------------------------------------------------------------

  /** One click on the like (or dislike) button of answer `k`, acting on
      `mine`, the set of that button, and `other`, the opposite set. */
  function Toggled(mine: set<int>, other: set<int>, k: int): (r: (set<int>, set<int>))
  {
    if k in mine then (mine - {k}, other) else (mine + {k}, other - {k})
  }

  /** A click keeps the two sets disjoint, marks `k` exactly when it was
      not marked, and leaves every other answer as it was. */
  lemma ToggledSpec(mine: set<int>, other: set<int>, k: int)
    requires mine !! other
    ensures var m, o := Toggled(mine, other, k).0, Toggled(mine, other, k).1;
      && m !! o
      && (k in m <==> k !in mine)
      && k !in o
      && (forall j :: j != k ==> (j in m <==> j in mine))
      && (forall j :: j != k ==> (j in o <==> j in other))
  {
  }

  /** Two clicks on the same button restore its set; the opposite set has
      lost `k` (it cannot hold `k` after the first click). */
  lemma ToggledTwice(mine: set<int>, other: set<int>, k: int)
    requires mine !! other
    ensures var m, o := Toggled(mine, other, k).0, Toggled(mine, other, k).1;
      Toggled(m, o, k) == (mine, other - {k})
  {
    if k in mine {
      assert k !in other && other - {k} == other;
      assert mine - {k} + {k} == mine;
    } else {
      assert mine + {k} - {k} == mine;
    }
  }

  // ---------------------------------------------------------------------
  // The component
  // ---------------------------------------------------------------------

  class Session {
    const history: History
    const storage: LocalStorage
    var inputText: string
    var isLoading: bool
    var liked: set<int>
    var disliked: set<int>
    var notice: Notice
    /** The reveal interval, while one is running. */
    var interval: Option<Interval>

    /** Like and dislike exclude each other, and a running interval has
        not yet passed the end of its answer. */
    ghost predicate Valid()
      reads this
    {
      && liked !! disliked
      && (interval.Some? ==> interval.value.i < TickCount(interval.value.text))
    }

    constructor (history: History, storage: LocalStorage)
      ensures this.history == history && this.storage == storage
      ensures Valid()
      ensures inputText == "" && !isLoading && liked == {} && disliked == {}
      ensures notice == Notice(false, "") && interval == None
    {
      this.history := history;
      this.storage := storage;
      inputText := "";
      isLoading := false;
      liked, disliked := {}, {};
      notice := Notice(false, "");
      interval := None;
    }

    /** The synchronous part of `Answer`, up to the request: a blank
        question changes nothing; any other clears the input, raises the
        loading flag and appends one pending entry. `sent` says whether the
        request to the answering service goes out. */
    method Answer(text: string) returns (sent: bool)
      requires Valid()
      modifies this, history
      ensures Valid()
      ensures sent <==> !AllWhitespace(text)
      ensures !sent ==>
                && history.entries == old(history.entries)
                && inputText == old(inputText) && isLoading == old(isLoading)
      ensures sent ==>
                && history.entries == old(history.entries) + [Entry(text, "")]
                && inputText == "" && isLoading
      ensures liked == old(liked) && disliked == old(disliked)
      ensures notice == old(notice) && interval == old(interval)
    {
      BlankIffAllWhitespace(text);
      if IsBlank(text) {
        return false;
      }
      inputText := "";
      isLoading := true;
      history.entries := history.entries + [Entry(text, "")];
      sent := true;
    }

    /** `triggerAnswer` (and `handleQuestionClick`): put the text in the
        input field, then `Answer` it. A blank text stays in the field. */
    method TriggerAnswer(text: string) returns (sent: bool)
      requires Valid()
      modifies this, history
      ensures Valid()
      ensures sent <==> !AllWhitespace(text)
      ensures inputText == if sent then "" else text
      ensures history.entries == if sent then old(history.entries) + [Entry(text, "")] else old(history.entries)
      ensures isLoading == (sent || old(isLoading))
      ensures liked == old(liked) && disliked == old(disliked)
      ensures notice == old(notice) && interval == old(interval)
    {
      inputText := text;
      sent := Answer(text);
    }

    /** The rest of `Answer`, once the service has settled the request for
        `question`. A failure overwrites the last entry with the error
        answer and lowers the loading flag. A reply has its `*` removed and
        starts the reveal interval at counter 0; nothing is written yet.
        `Answer` has no guard against a second interval; the model keeps
        one, so a reply may only start when none is running. */
    method Settle(question: string, reply: Reply)
      requires Valid()
      requires reply.Replied? ==> interval.None?
      modifies this, history
      ensures Valid()
      ensures reply.Failed? ==>
                && history.entries == ReplaceLast(old(history.entries), Entry(question, ErrorAnswer))
                && !isLoading && interval == old(interval)
      ensures reply.Replied? ==>
                && history.entries == old(history.entries)
                && interval == Some(Interval(question, StripStars(reply.text), 0))
                && isLoading == old(isLoading)
      ensures inputText == old(inputText) && liked == old(liked) && disliked == old(disliked)
      ensures notice == old(notice)
    {
      match reply
      case Failed =>
        history.entries := ReplaceLast(history.entries, Entry(question, ErrorAnswer));
        isLoading := false;
      case Replied(text) =>
        var newAnswer := StripStars(text);
        interval := Some(Interval(question, newAnswer, 0));
    }

    /** One call of the interval callback: overwrite the last entry with the
        question and the first `i + 1` characters of the answer, advance
        the counter, and once it reaches the answer's length stop the
        interval and lower the loading flag. */
    method Tick()
      requires Valid() && interval.Some?
      modifies this, history
      ensures Valid()
      ensures var r := old(interval.value);
        && history.entries == ReplaceLast(old(history.entries), Entry(r.question, Take(r.text, r.i + 1)))
        && (if r.i + 1 < TickCount(r.text)
            then interval == Some(r.(i := r.i + 1)) && isLoading == old(isLoading)
            else interval.None? && !isLoading)
      ensures inputText == old(inputText) && liked == old(liked) && disliked == old(disliked)
      ensures notice == old(notice)
    {
      var r := interval.value;
      history.entries := ReplaceLast(history.entries, Entry(r.question, Take(r.text, r.i + 1)));
      var i := r.i + 1;
      if i >= |r.text| {
        interval := None;
        isLoading := false;
      } else {
        interval := Some(r.(i := i));
      }
    }

    /** The interval run to its end. `written` records the transcript after
        each tick: tick `k` has written frame `i + k` of the answer into the
        last entry, leaving the earlier entries as they were, so the last
        entry ends up holding the whole stripped answer; the interval stops
        and loading ends. */
    method RevealAll() returns (ghost written: seq<seq<Entry>>)
      requires Valid() && interval.Some?
      modifies this, history
      ensures Valid() && interval.None? && !isLoading
      ensures var r := old(interval.value);
        && written == Ticks(old(history.entries), r.question, r.text, r.i, TickCount(r.text) - r.i)
        && history.entries == ReplaceLast(old(history.entries), Entry(r.question, r.text))
      ensures inputText == old(inputText) && liked == old(liked) && disliked == old(disliked)
      ensures notice == old(notice)
    {
      var r := interval.value;
      var q, t, i0 := r.question, r.text, r.i;
      ghost var start := history.entries;
      ghost var input, likes, dislikes, note := inputText, liked, disliked, notice;
      var n: nat := 0;
      written := [];
      while interval.Some?
        invariant Valid()
        invariant i0 + n <= TickCount(t)
        invariant interval.Some? ==> interval.value == Interval(q, t, i0 + n)
        invariant interval.None? ==> n > 0 && i0 + n == TickCount(t) && !isLoading
        invariant written == Ticks(start, q, t, i0, n)
        invariant history.entries == if n == 0 then start else written[n - 1]
        invariant inputText == input && liked == likes && disliked == dislikes && notice == note
        decreases TickCount(t) - (i0 + n)
      {
        TicksStep(start, q, t, i0, n, written, history.entries);
        Tick();
        written := written + [history.entries];
        n := n + 1;
      }
      FrameAt(t, i0 + n - 1);
    }

    /** `handleLike`: ignored while loading; otherwise one click on the like
        button of answer `k`. */
    method Like(k: int)
      requires Valid()
      modifies this
      ensures Valid()
      ensures if old(isLoading) then liked == old(liked) && disliked == old(disliked)
              else (liked, disliked) == Toggled(old(liked), old(disliked), k)
      ensures inputText == old(inputText) && isLoading == old(isLoading)
      ensures notice == old(notice) && interval == old(interval)
    {
      if isLoading {
        return;
      }
      ToggledSpec(liked, disliked, k);
      liked, disliked := Toggled(liked, disliked, k).0, Toggled(liked, disliked, k).1;
    }

    /** `handleDislike`: the mirror image of `Like`. */
    method Dislike(k: int)
      requires Valid()
      modifies this
      ensures Valid()
      ensures if old(isLoading) then liked == old(liked) && disliked == old(disliked)
              else (disliked, liked) == Toggled(old(disliked), old(liked), k)
      ensures inputText == old(inputText) && isLoading == old(isLoading)
      ensures notice == old(notice) && interval == old(interval)
    {
      if isLoading {
        return;
      }
      ToggledSpec(disliked, liked, k);
      disliked, liked := Toggled(disliked, liked, k).0, Toggled(disliked, liked, k).1;
    }

    /** `handleCopy`: ignored while loading; otherwise shows the copy notice
        (the clipboard write itself is not modelled). */
    method Copy()
      requires Valid()
      modifies this
      ensures Valid()
      ensures notice == if old(isLoading) then old(notice) else Notice(true, CopiedText)
      ensures inputText == old(inputText) && isLoading == old(isLoading)
      ensures liked == old(liked) && disliked == old(disliked) && interval == old(interval)
    {
      if isLoading {
        return;
      }
      notice := Notice(true, CopiedText);
    }

    /** The timeout that follows a copy: hides the notice. */
    method HideNotice()
      requires Valid()
      modifies this
      ensures Valid()
      ensures notice == Notice(false, "")
      ensures inputText == old(inputText) && isLoading == old(isLoading)
      ensures liked == old(liked) && disliked == old(disliked) && interval == old(interval)
    {
      notice := Notice(false, "");
    }

    /** The effect run after every change of the transcript: write it to
        local storage under "chatHistory". */
    method Persist()
      modifies storage
      ensures storage.items == Saved(old(storage.items), history.entries)
    {
      storage.items := storage.items[ChatHistoryKey := history.entries];
    }
  }
}
