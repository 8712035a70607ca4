/**
 The client's svelte stores, app/src/stores.ts: named stores written by `set`, and the
 message history that keeps the latest payload frames.
 */
module ClientStores {
  import opened ClientProtocol

  function Min(a: int, b: int): int { if a <= b then a else b }

  /** The last `k` elements of `s`, or all of them when there are fewer. */
  function Latest<T>(s: seq<T>, k: nat): (r: seq<T>)
    ensures |r| == Min(|s|, k)
  {
    s[|s| - Min(|s|, k)..]
  }

  /**
   `Array.prototype.slice(start)`: a negative start counts back from the end, and one
   before the beginning is the beginning.
   */
  function SliceFrom<T>(h: seq<T>, start: int): (r: seq<T>)
    ensures start < 0 ==> |r| == Min(-start, |h|)
    ensures 0 <= start ==> |r| == if start <= |h| then |h| - start else 0
    ensures r == h[|h| - |r|..]
  {
    if start < 0 then
      (if |h| + start < 0 then h else h[|h| + start..])
    else if start <= |h| then h[start..]
    else []
  }

  /** How many earlier messages `[...history.slice(-100), msg]` keeps. */
  const Kept := 100

  /** The `update` of `messageHistory` for one payload frame `msg`. */
  function AppendToHistory<T>(h: seq<T>, msg: T): (r: seq<T>)
    ensures |r| == Min(|h|, Kept) + 1
    ensures r[|r| - 1] == msg
    ensures r[..|r| - 1] == Latest(h, Kept)
    ensures |h| <= Kept ==> r == h + [msg]
  {
    SliceFrom(h, -Kept) + [msg]
  }

  /** The history after each of `msgs` has been appended in turn. */
  function Replay<T>(h: seq<T>, msgs: seq<T>): (r: seq<T>)
    decreases |msgs|
  {
    if msgs == [] then h else Replay(AppendToHistory(h, msgs[0]), msgs[1..])
  }

  /** Keeping the latest k of the latest k of a sequence and then more is the latest k of all of it. */
  lemma LatestOfLatest<T>(a: seq<T>, b: seq<T>, k: nat)
    ensures Latest(Latest(a, k) + b, k) == Latest(a + b, k)
  {
    var la := Latest(a, k);
    var x := Latest(la + b, k);
    var y := Latest(a + b, k);
    assert |x| == |y|;
    forall i | 0 <= i < |x|
      ensures x[i] == y[i]
    {
      var j := |la + b| - |x| + i;
      if j < |la| {
        assert x[i] == la[j] == a[|a| - |la| + j];
      } else {
        assert x[i] == b[j - |la|];
      }
    }
  }

  /**
   One update keeps the latest 101 frames: the hundred kept before, and the new one.
   */
  lemma AppendKeepsLatest<T>(h: seq<T>, msg: T)
    ensures AppendToHistory(h, msg) == Latest(h + [msg], Kept + 1)
  {
    var r := AppendToHistory(h, msg);
    assert r == r[..|r| - 1] + [r[|r| - 1]];
  }

  /**
   Whatever the history held, after one or more payload frames it holds the latest 101
   frames of everything seen, in arrival order.
   */
  lemma {:induction false} ReplayKeepsLatest<T>(h: seq<T>, msgs: seq<T>)
    requires msgs != []
    ensures Replay(h, msgs) == Latest(h + msgs, Kept + 1)
    decreases |msgs|
  {
    var m, rest := msgs[0], msgs[1..];
    var h' := AppendToHistory(h, m);
    assert msgs == [m] + rest;
    AppendKeepsLatest(h, m);
    if rest == [] {
      assert Replay(h', rest) == h';
    } else {
      ReplayKeepsLatest(h', rest);
      ShiftLatest(h, m, rest);
    }
  }

  lemma ShiftLatest<T>(h: seq<T>, m: T, rest: seq<T>)
    ensures Latest(Latest(h + [m], Kept + 1) + rest, Kept + 1) == Latest(h + ([m] + rest), Kept + 1)
  {
    LatestOfLatest(h + [m], rest, Kept + 1);
    assert (h + [m]) + rest == h + ([m] + rest);
  }

  /** `messageHistory` starts empty; after the frames `msgs` it holds the latest 101 of them. */
  lemma MessageHistoryIsLatest<T>(msgs: seq<T>)
    ensures Replay([], msgs) == Latest(msgs, Kept + 1)
    ensures |Replay([], msgs)| <= Kept + 1
  {
    if msgs != [] {
      ReplayKeepsLatest([], msgs);
      assert [] + msgs == msgs;
    }
  }

  /** A store made by `createStore`: its name (used only for logging) and its current value. */
  datatype Store = Store(name: string, value: JsValue)

  /** `createStore(name)`: a store holding `false`. */
  function CreateStore(name: string): (s: Store)
    ensures s.name == name && s.value == JBool(false)
  {
    Store(name, JBool(false))
  }

  /** `set(value)`: replaces the value whatever it was. */
  function Set(s: Store, v: JsValue): (r: Store)
    ensures r.value == v && r.name == s.name
  {
    s.(value := v)
  }

  /** The last `set` wins, and setting the current value changes nothing. */
  lemma SetLastWins(s: Store, v: JsValue, w: JsValue)
    ensures Set(Set(s, v), w) == Set(s, w)
    ensures Set(s, s.value) == s
  {
  }
}
