/** The chat transcript helpers of app.py: reading a list out of the
    cookie session and keeping only its newest entries. */
module Transcript {

  /** What a session slot may hold: a list (a transcript) or any other
      value, whose contents the helpers never look at. */
  datatype SessionValue<T> = ListValue(items: seq<T>) | OtherValue

  /** `_safe_session_list`: `session.get(key, [])`, then `[]` unless the
      value found is a list. */
  function SafeSessionList<T>(session: map<string, SessionValue<T>>, key: string): (r: seq<T>)
    ensures key in session && session[key].ListValue? ==> r == session[key].items
    ensures r != [] ==> key in session && session[key] == ListValue(r)
  {
    var v := if key in session then session[key] else ListValue([]);
    if v.ListValue? then v.items else []
  }

  /** `_trim_history`'s default bound. */
  const DefaultMaxMessages: int := 30

  /** Python's `s[start:]` for a possibly negative `start`. */
  function SliceFrom<T>(s: seq<T>, start: int): (r: seq<T>)
    ensures |r| <= |s| && r == s[|s| - |r|..]
    ensures start < 0 ==> |r| == (if -start < |s| then -start else |s|)
    ensures start >= 0 ==> |r| == (if start < |s| then |s| - start else 0)
  {
    var k := if start < 0 then (if |s| + start < 0 then 0 else |s| + start)
             else (if start < |s| then start else |s|);
    s[k..]
  }

  ghost predicate IsSuffix<T>(r: seq<T>, s: seq<T>)
  {
    |r| <= |s| && r == s[|s| - |r|..]
  }

  /** `_trim_history`: `history[-max_messages:]` when the history is longer
      than `max_messages`, else the history itself. */
  function TrimHistory<T>(history: seq<T>, maxMessages: int): (r: seq<T>)
    ensures IsSuffix(r, history)
    ensures |history| <= maxMessages ==> r == history
    ensures maxMessages >= 1 ==> |r| == (if |history| < maxMessages then |history| else maxMessages)
  {
    if |history| > maxMessages then SliceFrom(history, -maxMessages) else history
  }

  /** With a bound of 0, Python's `history[-0:]` is the whole list, so
      nothing is dropped. */
  lemma TrimHistoryZeroKeepsAll<T>(history: seq<T>)
    ensures TrimHistory(history, 0) == history
  {
  }

  /** With a negative bound the slice start is positive: the oldest
      `-maxMessages` entries are dropped instead of the newest kept. */
  lemma TrimHistoryNegativeDropsOldest<T>(history: seq<T>, maxMessages: int)
    requires maxMessages < 0
    ensures TrimHistory(history, maxMessages)
         == history[if -maxMessages < |history| then -maxMessages else |history|..]
  {
  }

  /** Trimming twice with the same non-negative bound is trimming once. */
  lemma TrimHistoryIdempotent<T>(history: seq<T>, maxMessages: int)
    requires maxMessages >= 0
    ensures TrimHistory(TrimHistory(history, maxMessages), maxMessages) == TrimHistory(history, maxMessages)
  {
  }

  /** Appending to a trimmed transcript and trimming again gives what
      trimming the untrimmed transcript with the same additions gives: the
      earlier trim lost nothing the later one would have kept. */
  lemma TrimHistoryAbsorbsAppend<T>(history: seq<T>, more: seq<T>, maxMessages: int)
    requires maxMessages >= 1
    ensures TrimHistory(TrimHistory(history, maxMessages) + more, maxMessages)
         == TrimHistory(history + more, maxMessages)
  {
    var t := TrimHistory(history, maxMessages);
    var a, b := t + more, history + more;
    assert a == b[|b| - |a|..];
    if |a| > maxMessages {
      assert TrimHistory(a, maxMessages) == a[|a| - maxMessages..];
      assert TrimHistory(b, maxMessages) == b[|b| - maxMessages..];
    }
  }

  /** The caller's pattern: append one turn, then trim, for each turn. */
  function AppendEach<T>(history: seq<T>, turns: seq<T>, maxMessages: int): (r: seq<T>)
    decreases |turns|
  {
    if turns == [] then history
    else AppendEach(TrimHistory(history + [turns[0]], maxMessages), turns[1..], maxMessages)
  }

  /** Trimming after every append keeps exactly the newest `maxMessages`
      turns of everything appended, in their original order. */
  lemma {:induction false} AppendEachIsTrimOfAll<T>(history: seq<T>, turns: seq<T>, maxMessages: int)
    requires maxMessages >= 1 && |history| <= maxMessages
    ensures AppendEach(history, turns, maxMessages) == TrimHistory(history + turns, maxMessages)
    decreases |turns|
  {
    if turns == [] {
      assert history + turns == history;
    } else {
      var grown := history + [turns[0]];
      var next := TrimHistory(grown, maxMessages);
      assert turns == [turns[0]] + turns[1..];
      assert grown + turns[1..] == history + turns;
      AppendEachIsTrimOfAll(next, turns[1..], maxMessages);
      TrimHistoryAbsorbsAppend(grown, turns[1..], maxMessages);
    }
  }

  /** From an empty transcript, `n` appended turns leave `min(n, 30)` of
      them: the newest, oldest first. */
  lemma TranscriptBound<T>(turns: seq<T>)
    ensures var r := AppendEach([], turns, DefaultMaxMessages);
      && |r| == (if |turns| < DefaultMaxMessages then |turns| else DefaultMaxMessages)
      && r == turns[|turns| - |r|..]
  {
    AppendEachIsTrimOfAll([], turns, DefaultMaxMessages);
    assert [] + turns == turns;
  }
}
