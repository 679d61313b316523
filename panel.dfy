/**
 * The application window of gui.py (`SwitchBoardApp`) without its widgets: the
 * loaded board keys, one board per key, and the cache of values last received
 * per board. Board i (counting from 1) publishes on "switchboard-i/out"; the
 * subscriber hands every message on those topics to `OnMessage`.
 */
module Panel {
  import opened Wrappers
  import opened Text
  import opened Codec
  import opened Switches
  import opened Names

  /** The topic board i (counting from 1) publishes on and listens to. */
  function BoardTopic(i: nat): string {
    "switchboard-" + NatToString(i) + "/out"
  }

  /** The cache key `apply_cached` looks up for board i (counting from 1). */
  function CacheKey(i: nat): string {
    "sb_" + NatToString(i)
  }

  /**
   * The cache key `custom_on_message` derives from a topic: for a topic that starts
   * with "switchboard-" and ends with "/out", "sb_" followed by the text between
   * the first and second '-' cut at the first '/'.
   */
  function TopicKey(topic: string): (r: Option<string>)
    ensures r.Some? <==> HasPrefix(topic, "switchboard-") && HasSuffix(topic, "/out")
    ensures r.Some? ==> HasPrefix(r.value, "sb_")
  {
    if HasPrefix(topic, "switchboard-") && HasSuffix(topic, "/out") then
      assert topic[11] == topic[..12][11] == '-';
      Some("sb_" + Before(Before(After(topic, '-'), '-'), '/'))
    else None
  }

  /** A topic "switchboard-N/out", N free of '-' and '/', routes to key "sb_N". */
  lemma TopicKeyOf(num: string)
    requires '-' !in num && '/' !in num
    ensures TopicKey("switchboard-" + num + "/out") == Some("sb_" + num)
  {
    var topic := "switchboard-" + num + "/out";
    PrefixSuffix("switchboard-", num, "/out");
    var rest := num + "/out";
    assert "switchboard-" == "switchboard" + ['-'];
    assert topic == "switchboard" + ['-'] + rest;
    SplitAt("switchboard", '-', rest);
    assert '-' !in rest;
    assert "/out" == ['/'] + "out";
    assert rest == num + ['/'] + "out";
    SplitAt(num, '/', "out");
  }

  /** Each board's own topic routes to the key `apply_cached` reads for it. */
  lemma RouteOwnTopic(i: nat)
    ensures TopicKey(BoardTopic(i)) == Some(CacheKey(i))
  {
    var num := NatToString(i);
    forall p | 0 <= p < |num| ensures num[p] != '-' && num[p] != '/' {
      assert IsDigitIn(num[p], 10);
    }
    assert BoardTopic(i) == "switchboard-" + num + "/out";
    TopicKeyOf(num);
  }

  /**
   * The cache after `custom_on_message`: the decoded value is stored under the
   * routed key when that key names a loaded board and decoding succeeded (a
   * failed decode raises and is logged); otherwise the cache is left as it was.
   */
  function Received(cache: map<string, Option<nat>>, keys: seq<string>, topic: string, decoded: Option<nat>)
    : (r: map<string, Option<nat>>)
    ensures r.Keys == cache.Keys || (TopicKey(topic).Some? && r.Keys == cache.Keys + {TopicKey(topic).value})
    ensures forall k :: k in r && k in cache && r[k] != cache[k] ==>
      TopicKey(topic) == Some(k) && k in keys && decoded == r[k] && decoded.Some?
    ensures forall k :: k in r && k !in cache ==>
      TopicKey(topic) == Some(k) && k in keys && decoded == r[k] && decoded.Some?
  {
    match TopicKey(topic)
    case None => cache
    case Some(key) => if key in keys && decoded.Some? then cache[key := decoded] else cache
  }

  /** A value decoded from board i's own topic lands in the cache entry `apply_cached` reads for board i. */
  lemma ReceiveOwnTopic(cache: map<string, Option<nat>>, keys: seq<string>, i: nat, v: nat)
    requires CacheKey(i) in keys
    ensures Received(cache, keys, BoardTopic(i), Some(v)) == cache[CacheKey(i) := Some(v)]
  {
    RouteOwnTopic(i);
  }

  /** Other topics, unknown boards and failed decodes leave the cache as it was. */
  lemma ReceiveIgnores(cache: map<string, Option<nat>>, keys: seq<string>, topic: string, decoded: Option<nat>)
    requires !HasPrefix(topic, "switchboard-") || !HasSuffix(topic, "/out")
          || TopicKey(topic).value !in keys || decoded.None?
    ensures Received(cache, keys, topic, decoded) == cache
  {
  }

  /** `switch_cache.get(key)`: an absent key reads as None. */
  function Lookup(cache: map<string, Option<nat>>, key: string): Option<nat> {
    if key in cache then cache[key] else None
  }

  /** A bank after `apply_cached`'s step: `apply_value` as written when a value is
      cached (with its partial writes if it raises), otherwise the bank as it was. */
  function CachedAsWritten(cached: Option<nat>, s: seq<Bit>): (r: seq<Bit>)
    ensures |r| == |s|
    ensures cached.None? ==> r == s
  {
    match cached
    case Some(v) => AfterApplyValue(v, s)
    case None => s
  }

  /** When `apply_value` does not raise, the bank is the one it specifies. */
  lemma CachedApplies(v: nat, s: seq<Bit>)
    requires !Raises(Some(v), |s|)
    ensures AppliedAsWritten(v, |s|).Some?
    ensures CachedAsWritten(Some(v), s) == AppliedAsWritten(v, |s|).value
  {
    AsWrittenFails(v, |s|);
    AfterApplyValueCases(v, s);
  }

  /** The banks `apply_cached` aims at: board c (counting from 0) set from the value
      cached under CacheKey(c + 1). */
  function CachedBanks(cache: map<string, Option<nat>>, olds: seq<seq<Bit>>): (r: seq<seq<Bit>>)
    ensures |r| == |olds|
  {
    if olds == [] then []
    else CachedBanks(cache, olds[..|olds| - 1]) + [CachedAsWritten(Lookup(cache, CacheKey(|olds|)), olds[|olds| - 1])]
  }

  lemma {:induction false} CachedBanksAt(cache: map<string, Option<nat>>, olds: seq<seq<Bit>>, c: nat)
    requires c < |olds|
    ensures CachedBanks(cache, olds)[c] == CachedAsWritten(Lookup(cache, CacheKey(c + 1)), olds[c])
  {
    if c < |olds| - 1 {
      CachedBanksAt(cache, olds[..|olds| - 1], c);
    }
  }

  /** For each bank in olds (board c counting from 0), whether `apply_value` raises on
      the value cached under CacheKey(c + 1). */
  function RaisingBoards(cache: map<string, Option<nat>>, olds: seq<seq<Bit>>): (r: seq<bool>)
    ensures |r| == |olds|
  {
    if olds == [] then []
    else RaisingBoards(cache, olds[..|olds| - 1]) + [Raises(Lookup(cache, CacheKey(|olds|)), |olds[|olds| - 1]|)]
  }

  lemma {:induction false} RaisingBoardsAt(cache: map<string, Option<nat>>, olds: seq<seq<Bit>>, c: nat)
    requires c < |olds|
    ensures RaisingBoards(cache, olds)[c] == Raises(Lookup(cache, CacheKey(c + 1)), |olds[c]|)
  {
    if c < |olds| - 1 {
      RaisingBoardsAt(cache, olds[..|olds| - 1], c);
    }
  }

  /** The loop of `apply_cached` has looked at the flags before b; `raised` is the
      first of them that is set, in which case b is just past it. */
  predicate RaisedSoFar(fs: seq<bool>, b: nat, raised: Option<nat>) {
    && b <= |fs|
    && (raised.None? ==> forall c :: 0 <= c < b ==> !fs[c])
    && (raised.Some? ==> raised.value + 1 == b && fs[raised.value] && forall c :: 0 <= c < raised.value ==> !fs[c])
  }

  lemma RaisedStep(fs: seq<bool>, b: nat)
    requires RaisedSoFar(fs, b, None) && b < |fs|
    ensures RaisedSoFar(fs, b + 1, if fs[b] then Some(b) else None)
  {
  }

  /** `apply_value` raises IndexError on a board of n switches for this cached value:
      the board has more than twelve switches and the value fewer binary digits than
      that (`AsWrittenFails`). */
  predicate Raises(cached: Option<nat>, n: nat) {
    cached.Some? && n > BankWidth && cached.value < Pow2(n - 1)
  }

  /** On a twelve-switch board a cached value below 4096 is applied without error, and
      the board then packs to that value. */
  lemma CachedStandardBoard(v: nat, s: seq<Bit>)
    requires |s| == BankWidth && v < Pow2(BankWidth)
    ensures !Raises(Some(v), |s|)
    ensures Encode(CachedAsWritten(Some(v), s)) == v
  {
    AsWrittenEncodeAfterApply(v);
    CachedApplies(v, s);
  }

  /** On a twelve-switch board, applying the value another twelve-switch board published
      reproduces that board's bank. */
  lemma CachedRestoresBank(s: seq<Bit>, t: seq<Bit>)
    requires |s| == |t| == BankWidth
    ensures CachedAsWritten(Some(Encode(t)), s) == t
  {
    AsWrittenRoundTrip(t);
    CachedApplies(Encode(t), s);
  }

  /** A board of more than twelve switches raises on every cached value below 4096. */
  lemma RaisesOnLongBoard(v: nat, n: nat)
    requires n > BankWidth && v < Pow2(BankWidth)
    ensures Raises(Some(v), n)
    ensures AppliedAsWritten(v, n).None?
  {
    PowMonotone(BankWidth, n - 1);
    assert v < Pow2(n - 1);
    AsWrittenFails(v, n);
  }

  /** The boards the window builds: the loaded ones, or one default board "sb_1"
      with the twelve default names when none is configured. */
  function BoardsOf(loaded: seq<(string, seq<string>)>): seq<(string, seq<string>)> {
    if loaded == [] then [("sb_1", DefaultNames(DefaultCount))] else loaded
  }

  /**
   * The window's board keys, loaded or defaulted, are in key-number order, so
   * the object `on_save_config` writes loads back to the same boards, each with
   * its switches' names (blanks as "SW j").
   */
  lemma SaveThenLoad(switchNames: Option<Config>, names: seq<seq<string>>)
    requires LoadedNames(switchNames).Success?
    requires |names| == |BoardsOf(LoadedNames(switchNames).value)|
    ensures var keys := KeysOf(BoardsOf(LoadedNames(switchNames).value));
      LoadedNames(Some(SavedConfig(keys, names)))
        == Success(seq(|keys|, i requires 0 <= i < |keys| => (keys[i], FillBlanks(names[i]))))
  {
    var loaded := LoadedNames(switchNames).value;
    var keys := KeysOf(BoardsOf(loaded));
    if loaded == [] {
      DefaultKeyInOrder();
      assert keys == ["sb_1"];
    } else {
      LoadedKeysInOrder(switchNames);
    }
    LoadAfterSave(keys, names);
  }

  lemma DefaultKeyInOrder()
    ensures KeysInOrder(["sb_1"])
  {
    KeyIndexOf("sb", 1);
    assert NatToString(1) == [DigitChar(1)] == "1";
    assert "sb_1" == "sb" + "_" + NatToString(1);
  }

  lemma LoadedKeysInOrder(switchNames: Option<Config>)
    requires LoadedNames(switchNames).Success?
    ensures KeysInOrder(KeysOf(LoadedNames(switchNames).value))
  {
    LoadedOrdered(switchNames);
  }

  /** Board b as the window's constructor leaves it: publishing on `topic`, one
      inactive, latching switch per name. */
  ghost predicate Built(b: Board, topic: string, names: seq<string>)
    reads b, b.switches
  {
    && b.Valid()
    && b.topic == topic
    && b.Names() == names
    && b.States() == AllSame(|names|, 0)
    && b.Holds() == Released(|names|)
    && b.published == []
  }

  /** The boards of the window's constructor, board i publishing on BoardTopic(i + 1). */
  method NewBoards(source: seq<(string, seq<string>)>) returns (bs: seq<Board>)
    ensures |bs| == |source|
    ensures forall c :: 0 <= c < |bs| ==> fresh(bs[c]) && fresh(bs[c].Repr)
    ensures forall c, d :: 0 <= c < d < |bs| ==> bs[c] != bs[d] && bs[c].Repr !! bs[d].Repr
    ensures forall c :: 0 <= c < |bs| ==> Built(bs[c], BoardTopic(c + 1), source[c].1)
  {
    bs := [];
    var i := 0;
    while i < |source|
      invariant 0 <= i <= |source| && |bs| == i
      invariant forall c :: 0 <= c < i ==> fresh(bs[c]) && fresh(bs[c].Repr)
      invariant forall c, d :: 0 <= c < d < i ==> bs[c] != bs[d] && bs[c].Repr !! bs[d].Repr
      invariant forall c :: 0 <= c < i ==> Built(bs[c], BoardTopic(c + 1), source[c].1)
    {
      bs := AddBoard(bs, BoardTopic(i + 1), source[i].1);
      i := i + 1;
    }
  }

  /** One step of the constructor's loop: a new board is appended. */
  method AddBoard(prev: seq<Board>, topic: string, names: seq<string>) returns (bs: seq<Board>)
    requires forall c, d :: 0 <= c < d < |prev| ==> prev[c] != prev[d] && prev[c].Repr !! prev[d].Repr
    ensures |bs| == |prev| + 1 && bs[..|prev|] == prev
    ensures fresh(bs[|prev|]) && fresh(bs[|prev|].Repr)
    ensures Built(bs[|prev|], topic, names)
    ensures forall c, d :: 0 <= c < d < |bs| ==> bs[c] != bs[d] && bs[c].Repr !! bs[d].Repr
  {
    var b := new Board(topic, names);
    assert b.Holds() == Released(|names|);
    bs := prev + [b];
  }

  /** The switches of all the given boards. */
  ghost function ReprOf(bs: seq<Board>): set<Switch> {
    if bs == [] then {} else ReprOf(bs[..|bs| - 1]) + bs[|bs| - 1].Repr
  }

  /** Every board's switches are in the union, and nothing else is. */
  lemma {:induction false} ReprOfBounds(bs: seq<Board>)
    ensures forall c :: 0 <= c < |bs| ==> bs[c].Repr <= ReprOf(bs)
    ensures forall s :: s in ReprOf(bs) ==> exists c :: 0 <= c < |bs| && s in bs[c].Repr
  {
    if bs != [] {
      var init := bs[..|bs| - 1];
      ReprOfBounds(init);
      assert forall c :: 0 <= c < |init| ==> init[c] == bs[c];
    }
  }

  /** The inner loop of `on_save_config`: "sw_j" -> the name of switch j, for one board. */
  method NameItems(b: Board) returns (items: seq<(string, string)>)
    ensures items == SwitchItems(b.Names())
  {
    var sws := b.switches;
    ghost var names := b.Names();
    items := [];
    var j := 0;
    while j < |sws|
      invariant 0 <= j <= |sws| && |items| == j
      invariant forall p :: 0 <= p < j ==> items[p] == ("sw_" + NatToString(p), names[p])
    {
      items := items + [("sw_" + NatToString(j), sws[j].name)];
      j := j + 1;
    }
    assert items == SwitchItems(names);
  }

  class App {
    /** `sb_keys`: the board keys in load order. */
    const keys: seq<string>
    /** `switchboards`: boards[i] publishes on BoardTopic(i + 1). */
    const boards: seq<Board>
    /** `switch_cache`: per board key, the value last received, None before any. */
    var cache: map<string, Option<nat>>
    /** The switches of all boards. */
    ghost const Repr: set<Switch>

    ghost predicate Valid()
      reads this
    {
      && |keys| == |boards| > 0
      && (forall i :: 0 <= i < |boards| ==> boards[i].Valid() && boards[i].Repr <= Repr)
      && (forall i, j :: 0 <= i < j < |boards| ==> boards[i] != boards[j] && boards[i].Repr !! boards[j].Repr)
      && (forall k :: k in cache <==> k in keys)
    }

    /** Every switch of every board. */
    ghost function Switches(): set<Switch> {
      set i, s | 0 <= i < |boards| && s in boards[i].switches :: s
    }

    /** The names of the switches, board by board. */
    function BoardNames(): (r: seq<seq<string>>)
      reads Switches()
      ensures |r| == |boards| && forall i :: 0 <= i < |boards| ==> r[i] == boards[i].Names()
    {
      assert forall i, s :: 0 <= i < |boards| && s in boards[i].switches ==> s in Switches();
      seq(|boards|, i reads Switches() requires 0 <= i < |boards| => boards[i].Names())
    }

    /** The states of the switches, board by board. */
    function BoardStates(): (r: seq<seq<Bit>>)
      reads Switches()
      ensures |r| == |boards| && forall i :: 0 <= i < |boards| ==> r[i] == boards[i].States()
    {
      assert forall i, s :: 0 <= i < |boards| && s in boards[i].switches ==> s in Switches();
      seq(|boards|, i reads Switches() requires 0 <= i < |boards| => boards[i].States())
    }

    /** The hold flags of the switches, board by board. */
    function BoardHolds(): (r: seq<seq<bool>>)
      reads Switches()
      ensures |r| == |boards| && forall i :: 0 <= i < |boards| ==> r[i] == boards[i].Holds()
    {
      assert forall i, s :: 0 <= i < |boards| && s in boards[i].switches ==> s in Switches();
      seq(|boards|, i reads Switches() requires 0 <= i < |boards| => boards[i].Holds())
    }

    /**
     * The window built from what `_load_switch_names` returned: one board per
     * key, in order, with inactive latching switches named as loaded, and an
     * empty cache entry per key.
     */
    constructor (loaded: seq<(string, seq<string>)>)
      ensures Valid() && fresh(Repr)
      ensures forall s :: s in Repr ==> exists i :: 0 <= i < |boards| && s in boards[i].Repr
      ensures keys == KeysOf(BoardsOf(loaded))
      ensures forall i :: 0 <= i < |boards| ==>
        && fresh(boards[i])
        && boards[i].topic == BoardTopic(i + 1)
        && boards[i].Names() == BoardsOf(loaded)[i].1
        && boards[i].States() == AllSame(|BoardsOf(loaded)[i].1|, 0)
        && boards[i].Holds() == Released(|BoardsOf(loaded)[i].1|)
        && boards[i].published == []
      ensures forall k :: k in keys ==> cache[k] == None
    {
      var source := BoardsOf(loaded);
      var bs := NewBoards(source);
      keys := KeysOf(source);
      boards := bs;
      cache := map k | k in KeysOf(source) :: None;
      Repr := ReprOf(bs);
      new;
      ReprOfBounds(bs);
    }

    /** `custom_on_message`, given what decoding the payload yields (None: it raised). */
    method OnMessage(topic: string, decoded: Option<nat>)
      requires Valid()
      modifies this`cache
      ensures Valid()
      ensures cache == Received(old(cache), keys, topic, decoded)
    {
      var key := TopicKey(topic);
      if key.None? {
        return;
      }
      if key.value !in keys {
        return;
      }
      if decoded.None? {
        return;
      }
      cache := cache[key.value := decoded];
    }

    /**
     * `apply_cached`: board i (counting from 1) is set silently, by `apply_value` as
     * written, from the value cached under "sb_i", when there is one. The first
     * IndexError leaves the method: `raised` is the board it came from, and the
     * later boards are not touched. Holds, names and published values never change.
     */
    method ApplyCached() returns (raised: Option<nat>)
      requires Valid()
      modifies Repr
      ensures raised.None? ==> forall c :: 0 <= c < |boards| ==>
        !Raises(Lookup(cache, CacheKey(c + 1)), |boards[c].switches|)
      ensures raised.Some? ==>
        && raised.value < |boards|
        && Raises(Lookup(cache, CacheKey(raised.value + 1)), |boards[raised.value].switches|)
        && forall c :: 0 <= c < raised.value ==> !Raises(Lookup(cache, CacheKey(c + 1)), |boards[c].switches|)
      ensures forall c :: 0 <= c < |boards| ==>
        BoardStates()[c] ==
          if raised.None? || c <= raised.value
          then CachedAsWritten(Lookup(cache, CacheKey(c + 1)), old(BoardStates())[c])
          else old(BoardStates())[c]
      ensures BoardHolds() == old(BoardHolds()) && BoardNames() == old(BoardNames())
      ensures forall c :: 0 <= c < |boards| ==> boards[c].published == old(boards[c].published)
    {
      ghost var olds, holds, names := BoardStates(), BoardHolds(), BoardNames();
      ghost var want, fails := CachedBanks(cache, olds), RaisingBoards(cache, olds);
      ghost var b;
      raised, b := ApplyLoop(want, fails, olds, holds, names);
      AppliedCache(b, raised, want, fails, olds, holds, names);
    }

    /** The loop of `apply_cached`, which stops after the first board that raises;
        b is the number of boards it went through. */
    method ApplyLoop(ghost want: seq<seq<Bit>>, ghost fails: seq<bool>, ghost olds: seq<seq<Bit>>,
                     ghost holds: seq<seq<bool>>, ghost names: seq<seq<string>>)
      returns (raised: Option<nat>, ghost b: nat)
      requires Valid() && AppliedUpTo(0, want, olds, holds, names)
      requires want == CachedBanks(cache, olds) && fails == RaisingBoards(cache, olds)
      modifies Repr
      ensures AppliedUpTo(b, want, olds, holds, names) && RaisedSoFar(fails, b, raised)
      ensures raised.None? ==> b == |boards|
    {
      raised := None;
      b := 0;
      var i := 0;
      while i < |boards| && raised.None?
        invariant i == b
        invariant AppliedUpTo(b, want, olds, holds, names)
        invariant RaisedSoFar(fails, b, raised)
      {
        var ok := ApplyOne(i, want, fails, olds, holds, names);
        RaisedStep(fails, i);
        if !ok {
          raised := Some(i);
        }
        i := i + 1;
        b := i;
      }
    }

    /** What the loop of `apply_cached` has done when it ends, stated per board. */
    lemma AppliedCache(b: nat, raised: Option<nat>, want: seq<seq<Bit>>, fails: seq<bool>,
                       olds: seq<seq<Bit>>, holds: seq<seq<bool>>, names: seq<seq<string>>)
      requires Valid() && AppliedUpTo(b, want, olds, holds, names) && RaisedSoFar(fails, b, raised)
      requires raised.None? ==> b == |boards|
      requires want == CachedBanks(cache, olds) && fails == RaisingBoards(cache, olds)
      ensures raised.None? ==> forall c :: 0 <= c < |boards| ==>
        !Raises(Lookup(cache, CacheKey(c + 1)), |boards[c].switches|)
      ensures raised.Some? ==>
        && raised.value < |boards|
        && Raises(Lookup(cache, CacheKey(raised.value + 1)), |boards[raised.value].switches|)
        && forall c :: 0 <= c < raised.value ==> !Raises(Lookup(cache, CacheKey(c + 1)), |boards[c].switches|)
      ensures forall c :: 0 <= c < |boards| ==>
        BoardStates()[c] ==
          if raised.None? || c <= raised.value then CachedAsWritten(Lookup(cache, CacheKey(c + 1)), olds[c])
          else olds[c]
      ensures BoardHolds() == holds && BoardNames() == names
    {
      forall c | 0 <= c < |boards|
        ensures want[c] == CachedAsWritten(Lookup(cache, CacheKey(c + 1)), olds[c])
        ensures fails[c] == Raises(Lookup(cache, CacheKey(c + 1)), |boards[c].switches|)
      {
        CachedBanksAt(cache, olds, c);
        RaisingBoardsAt(cache, olds, c);
      }
    }

    /** Boards before b hold their targets in `want`; the others, their states in `olds`;
        holds and names are as recorded. */
    ghost predicate AppliedUpTo(b: nat, want: seq<seq<Bit>>, olds: seq<seq<Bit>>, holds: seq<seq<bool>>, names: seq<seq<string>>)
      reads Switches()
    {
      assert forall i, s :: 0 <= i < |boards| && s in boards[i].switches ==> s in Switches();
      && b <= |boards| == |want| == |olds| == |holds| == |names|
      && forall c :: 0 <= c < |boards| ==>
        && boards[c].States() == (if c < b then want[c] else olds[c])
        && boards[c].Holds() == holds[c]
        && boards[c].Names() == names[c]
    }

    /** One round of `apply_cached`'s loop: the value cached for board b goes through
        `apply_value` as written, which reaches its target also when it raises (ok
        false); no other board changes. */
    method ApplyOne(b: nat, ghost want: seq<seq<Bit>>, ghost fails: seq<bool>, ghost olds: seq<seq<Bit>>,
                    ghost holds: seq<seq<bool>>, ghost names: seq<seq<string>>) returns (ok: bool)
      requires Valid() && b < |boards| && AppliedUpTo(b, want, olds, holds, names)
      requires want == CachedBanks(cache, olds) && fails == RaisingBoards(cache, olds)
      modifies boards[b].Repr
      ensures ok == !fails[b]
      ensures AppliedUpTo(b + 1, want, olds, holds, names)
    {
      var val := Lookup(cache, CacheKey(b + 1));
      CachedBanksAt(cache, olds, b);
      RaisingBoardsAt(cache, olds, b);
      assert olds[b] == boards[b].States();
      ok := SetBoard(b, val);
    }

    /** `apply_value` as written on board b with the cached value val, if any. */
    method SetBoard(b: nat, val: Option<nat>) returns (ok: bool)
      requires Valid() && b < |boards|
      modifies boards[b].Repr
      ensures ok == !Raises(val, |boards[b].switches|)
      ensures boards[b].States() == CachedAsWritten(val, old(boards[b].States()))
      ensures boards[b].Holds() == old(boards[b].Holds()) && boards[b].Names() == old(boards[b].Names())
      ensures forall c :: 0 <= c < |boards| && c != b ==>
        && boards[c].States() == old(boards[c].States())
        && boards[c].Holds() == old(boards[c].Holds())
        && boards[c].Names() == old(boards[c].Names())
    {
      ok := true;
      if val.Some? {
        AsWrittenFails(val.value, |boards[b].switches|);
        ok := boards[b].ApplyValueAsWritten(val.value);
      }
      forall c | 0 <= c < |boards| && c != b
        ensures boards[c].States() == old(boards[c].States())
        ensures boards[c].Holds() == old(boards[c].Holds()) && boards[c].Names() == old(boards[c].Names())
      {
        assert forall k :: 0 <= k < |boards[c].switches| ==> boards[c].switches[k] in boards[c].Repr;
      }
    }

    /**
     * The switch loop of `on_reset`: every switch of every board is deactivated
     * (publishing its board's bank each time) and its hold checkbox cleared.
     */
    method Reset()
      requires Valid()
      modifies Repr, boards
      ensures forall b :: 0 <= b < |boards| ==>
        && boards[b].States() == AllSame(|boards[b].switches|, 0)
        && boards[b].Holds() == Released(|boards[b].switches|)
        && boards[b].Names() == old(boards[b].Names())
        && boards[b].published == old(boards[b].published) + ResetTrace(old(boards[b].States()))
    {
      var b := 0;
      while b < |boards|
        invariant 0 <= b <= |boards|
        invariant forall c :: 0 <= c < |boards| ==>
          && boards[c].States() == (if c < b then AllSame(|boards[c].switches|, 0) else old(boards[c].States()))
          && boards[c].Holds() == (if c < b then Released(|boards[c].switches|) else old(boards[c].Holds()))
          && boards[c].Names() == old(boards[c].Names())
          && boards[c].published ==
               if c < b then old(boards[c].published) + ResetTrace(old(boards[c].States()))
               else old(boards[c].published)
      {
        ResetOne(b);
        b := b + 1;
      }
    }

    /** One round of `on_reset`'s board loop: board b and no other. */
    method ResetOne(b: nat)
      requires Valid() && b < |boards|
      modifies boards[b].Repr, boards[b]
      ensures boards[b].States() == AllSame(|boards[b].switches|, 0)
      ensures boards[b].Holds() == Released(|boards[b].switches|)
      ensures boards[b].published == old(boards[b].published) + ResetTrace(old(boards[b].States()))
      ensures forall c :: 0 <= c < |boards| ==> boards[c].Names() == old(boards[c].Names())
      ensures forall c :: 0 <= c < |boards| && c != b ==>
        && boards[c].States() == old(boards[c].States())
        && boards[c].Holds() == old(boards[c].Holds())
        && boards[c].published == old(boards[c].published)
    {
      boards[b].Reset();
      forall c | 0 <= c < |boards| && c != b
        ensures boards[c].States() == old(boards[c].States())
        ensures boards[c].Holds() == old(boards[c].Holds()) && boards[c].Names() == old(boards[c].Names())
      {
        assert forall k :: 0 <= k < |boards[c].switches| ==> boards[c].switches[k] in boards[c].Repr;
      }
    }

    /**
     * The `switch_names` object of `on_save_config`: per board key, the names of
     * its switches under keys "sw_0", "sw_1", ... Loading it again gives every
     * board back under its key with its names (blanks as "SW j") whenever the
     * keys are in key-number order, as loading leaves them.
     */
    method SaveConfig() returns (c: Config)
      requires Valid()
      ensures c == SavedConfig(keys, BoardNames())
    {
      c := [];
      var i := 0;
      while i < |keys|
        invariant 0 <= i <= |keys| && |c| == i
        invariant forall p :: 0 <= p < i ==> c[p] == (keys[p], NameDict(SwitchItems(boards[p].Names())))
      {
        var items := NameItems(boards[i]);
        c := c + [(keys[i], NameDict(items))];
        i := i + 1;
      }
      assert c == SavedConfig(keys, BoardNames());
    }
  }
}
