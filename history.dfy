/**
 * The sidebar's search history: an unbounded list of entries kept for the
 * session, appended to by a successful submission, shown newest first and
 * at most five at a time, and emptied by the clear button.
 */
module History {
  import opened Text
  import opened Tutor

  /** How many entries the sidebar shows. */
  const DisplayLimit := 5
  const NoHistoryMessage := "No search history available."

  function Min(a: nat, b: nat): nat {
    if a <= b then a else b
  }

  /** The elements of `s` in the opposite order. */
  function Reverse<T>(s: seq<T>): (r: seq<T>)
    ensures |r| == |s|
  {
    if s == [] then [] else [s[|s| - 1]] + Reverse(s[..|s| - 1])
  }

  /** Python `s[-n:]` for a positive `n`: the last `n` elements, or all of them when fewer. */
  function LastN<T>(s: seq<T>, n: nat): (r: seq<T>)
    requires n > 0
    ensures |r| == Min(n, |s|)
    ensures forall k :: 0 <= k < |r| ==> r[k] == s[|s| - |r| + k]
  {
    if |s| <= n then s else s[|s| - n..]
  }

  /** The `k`-th element of a reversal is the `k`-th element counted from the back. */
  lemma {:induction false} ReverseAt<T>(s: seq<T>, k: nat)
    requires k < |s|
    ensures Reverse(s)[k] == s[|s| - 1 - k]
  {
    if k > 0 {
      ReverseAt(s[..|s| - 1], k - 1);
    }
  }

  /** A list holding the last `n` elements newest first is the reversal of `s[-n:]`. */
  lemma ReversedWindow<T>(s: seq<T>, n: nat, r: seq<T>)
    requires n > 0
    requires |r| == Min(n, |s|)
    requires forall k :: 0 <= k < |r| ==> r[k] == s[|s| - 1 - k]
    ensures r == Reverse(LastN(s, n))
  {
    var w := LastN(s, n);
    forall k | 0 <= k < |r| ensures r[k] == Reverse(w)[k] {
      ReverseAt(w, k);
    }
  }

  /** The `k`-th element of the newest-first window is the `k`-th element from the end. */
  lemma WindowAt<T>(s: seq<T>, n: nat, k: nat)
    requires n > 0 && k < Min(n, |s|)
    ensures |Reverse(LastN(s, n))| == Min(n, |s|)
    ensures Reverse(LastN(s, n))[k] == s[|s| - 1 - k]
  {
    ReverseAt(LastN(s, n), k);
  }

  /**
   * Appending an entry puts it first in the reversed window, followed by the
   * window one shorter over the old list: the display slides by one.
   */
  lemma RecentAfterAppend<T>(s: seq<T>, e: T, n: nat)
    requires n > 1
    ensures Reverse(LastN(s + [e], n)) == [e] + Reverse(LastN(s, n - 1))
  {
    var w := LastN(s, n - 1);
    assert LastN(s + [e], n) == w + [e];
    assert (w + [e])[..|w|] == w;
  }

  /** After seven entries the sidebar window holds the last five, newest first. */
  lemma SevenEntriesShowLastFive<T>(e1: T, e2: T, e3: T, e4: T, e5: T, e6: T, e7: T)
    ensures Reverse(LastN([e1, e2, e3, e4, e5, e6, e7], DisplayLimit)) == [e7, e6, e5, e4, e3]
  {
    var h := [e1, e2, e3, e4, e5, e6, e7];
    var w := LastN(h, DisplayLimit);
    assert w == [e3, e4, e5, e6, e7];
    forall k | 0 <= k < 5 ensures Reverse(w)[k] == [e7, e6, e5, e4, e3][k] {
      ReverseAt(w, k);
    }
  }

  /** The line the sidebar writes for one entry. */
  function EntryLine(e: Entry): (line: string)
    ensures e.kind == Clues ==> StartsWith(line, "Clues - ")
    ensures e.kind == Answer ==> StartsWith(line, "Answer - ")
    ensures |e.response| <= |line| && line[|line| - |e.response|..] == e.response
  {
    (if e.kind == Clues then "Clues" else "Answer") + " - " + e.question + ": " + e.response
  }

  /** The session's history, kept across submissions until it is cleared. */
  class Session {
    var history: seq<Entry>

    /** A new session starts with an empty history. */
    constructor ()
      ensures history == []
    {
      history := [];
    }

    /**
     * Press Submit: a recorded outcome appends exactly its entry at the end;
     * every other outcome leaves the history as it was.
     */
    method Submit(apiKey: string, source: QuestionSource, action: Action,
                  provider: (string, string) -> ProviderOutcome) returns (outcome: Outcome)
      modifies this
      ensures outcome == Submission(apiKey, QuestionOf(source), action, provider)
      ensures outcome.Recorded? ==> history == old(history) + [outcome.entry]
      ensures !outcome.Recorded? ==> history == old(history)
    {
      outcome := Submission(apiKey, QuestionOf(source), action, provider);
      if outcome.Recorded? {
        history := history + [outcome.entry];
      }
    }

    /** The last `limit` entries (all, when fewer), newest first; the history itself is untouched. */
    method Recent(limit: nat) returns (shown: seq<Entry>)
      requires limit > 0
      ensures |shown| == Min(limit, |history|)
      ensures shown == Reverse(LastN(history, limit))
    {
      var h := history;
      var start := if |h| <= limit then 0 else |h| - limit;
      var i := |h|;
      shown := [];
      while i > start
        invariant start <= i <= |h|
        invariant |shown| == |h| - i
        invariant forall k :: 0 <= k < |shown| ==> shown[k] == h[|h| - 1 - k]
      {
        i := i - 1;
        shown := shown + [h[i]];
      }
      assert i == start;
      ReversedWindow(h, limit, shown);
    }

    /** The sidebar lines: the newest five entries, newest first, or a notice when there are none. */
    method Sidebar() returns (lines: seq<string>)
      ensures history == [] ==> lines == [NoHistoryMessage]
      ensures history != [] ==> |lines| == Min(DisplayLimit, |history|)
      ensures history != [] ==>
                forall k :: 0 <= k < |lines| ==> lines[k] == EntryLine(history[|history| - 1 - k])
    {
      if history == [] {
        lines := [NoHistoryMessage];
      } else {
        var shown := Recent(DisplayLimit);
        lines := seq(|shown|, k requires 0 <= k < |shown| => EntryLine(shown[k]));
        forall k | 0 <= k < |lines| ensures lines[k] == EntryLine(history[|history| - 1 - k]) {
          WindowAt(history, DisplayLimit, k);
        }
      }
    }

    /** Press Clear History: the list becomes empty. */
    method Clear()
      modifies this
      ensures history == []
    {
      history := [];
    }
  }
}
