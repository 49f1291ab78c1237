/**
 * The recent-word log shown beside the game: the latest accepted words,
 * oldest first, at most `Limit` of them.
 */
module History {
  import opened Text

  /** How many recent words the log keeps. */
  const Limit: nat := 5

  /** The last `k` elements of `s` (all of `s` when it is shorter). */
  function Latest<T>(s: seq<T>, k: nat): (r: seq<T>)
    ensures |r| == if |s| <= k then |s| else k
  {
    if |s| <= k then s else s[|s| - k..]
  }

  /**
   * An accepted chained word is pushed at the end; if the log then holds more
   * than `Limit` words, the single oldest one is shifted off the front.
   */
  function Record(h: seq<JsString>, w: JsString): (r: seq<JsString>)
    ensures |r| == if |h| < Limit then |h| + 1 else |h|
    ensures r[|r| - 1] == w
    ensures |h| <= Limit ==> r == Latest(h + [w], Limit)
  {
    var e := h + [w];
    if |e| > Limit then e[1..] else e
  }

  /** The log after a run of accepted words, recorded one by one in order. */
  function RecordAll(h: seq<JsString>, ws: seq<JsString>): seq<JsString>
    decreases ws
  {
    if ws == [] then h else RecordAll(Record(h, ws[0]), ws[1..])
  }

  /**
   * Starting from a log of at most `Limit` words, however many words are
   * accepted, the log holds exactly the latest `Limit` of all of them, oldest
   * first.
   */
  lemma {:induction false} RecordAllKeepsLatest(h: seq<JsString>, ws: seq<JsString>)
    requires |h| <= Limit
    ensures RecordAll(h, ws) == Latest(h + ws, Limit)
    decreases ws
  {
    if ws != [] {
      RecordAllKeepsLatest(Record(h, ws[0]), ws[1..]);
      RecordThenAppend(h, ws[0], ws[1..]);
      SplitFirst(h, ws);
    }
  }

  /** Peeling off the first of `ws`. */
  lemma SplitFirst<T>(h: seq<T>, ws: seq<T>)
    requires ws != []
    ensures h + [ws[0]] + ws[1..] == h + ws
  {
  }

  /** Recording one word and then appending more leaves the same latest `Limit` as appending them all at once. */
  lemma RecordThenAppend(h: seq<JsString>, w: JsString, rest: seq<JsString>)
    requires |h| <= Limit
    ensures Latest(Record(h, w) + rest, Limit) == Latest(h + [w] + rest, Limit)
  {
  }
}
