/**
 * Switch names from the configuration (gui.py `_load_switch_names`) and the
 * object `on_save_config` writes back. The `switch_names` object is given as its
 * items in file order; each value is a name object (`sw_j` keys), a name list,
 * or anything else.
 */
module Names {
  import opened Wrappers
  import opened Text

  datatype Entry = NameDict(items: seq<(string, string)>) | NameList(names: seq<string>) | OtherValue

  /** The key whose number could not be read (IndexError or ValueError in the source). */
  datatype LoadError = BadKey(key: string)

  type Config = seq<(string, Entry)>

  /** The number of switches a board gets when its entry is neither an object nor a list. */
  const DefaultCount: nat := 12

  /** `int(key.split("_")[1])`. */
  function KeyIndex(key: string): Option<nat> {
    if '_' in key then ParseNat(Before(After(key, '_'), '_'), 10) else None
  }

  /** A key written as a prefix without `_`, then `_` and a number, reads back as that number. */
  lemma KeyIndexOf(prefix: string, n: nat)
    requires '_' !in prefix
    ensures KeyIndex(prefix + "_" + NatToString(n)) == Some(n)
  {
    var digits := NatToString(n);
    assert prefix + "_" + digits == prefix + ['_'] + digits;
    SplitAt(prefix, '_', digits);
    assert '_' !in digits by {
      forall i | 0 <= i < |digits| ensures digits[i] != '_' {
        assert IsDigitIn(digits[i], 10);
      }
    }
    ParseToDigits(n, 10);
  }

  function SwName(i: nat): string {
    "SW " + NatToString(i)
  }

  function DefaultNames(n: nat): (r: seq<string>)
    ensures |r| == n && forall i :: 0 <= i < n ==> r[i] == SwName(i)
  {
    seq(n, i requires 0 <= i < n => SwName(i))
  }

  /** The comprehension that replaces an empty name at position i with "SW i". */
  function FillBlanks(names: seq<string>): (r: seq<string>)
    ensures |r| == |names|
    ensures forall i :: 0 <= i < |r| ==> r[i] != []
    ensures forall i :: 0 <= i < |r| ==> r[i] == if names[i] == [] then SwName(i) else names[i]
  {
    seq(|names|, i requires 0 <= i < |names| => if names[i] == [] then SwName(i) else names[i])
  }

  /** Each item paired with the number in its key; the first unreadable key is the error. */
  function Keyed<T>(items: seq<(string, T)>): (r: Result<seq<(nat, (string, T))>, LoadError>)
    ensures r.Failure? <==> exists i :: 0 <= i < |items| && KeyIndex(items[i].0).None?
    ensures r.Success? ==> |r.value| == |items| && forall i :: 0 <= i < |items| ==>
      r.value[i].1 == items[i] && KeyIndex(items[i].0) == Some(r.value[i].0)
  {
    if items == [] then Success([])
    else
      match KeyIndex(items[0].0)
      case None => Failure(BadKey(items[0].0))
      case Some(n) =>
        match Keyed(items[1..])
        case Failure(e) =>
          assert forall i :: 1 <= i < |items| ==> items[i] == items[1..][i - 1];
          Failure(e)
        case Success(rest) =>
          assert forall i :: 1 <= i < |items| ==> items[i] == items[1..][i - 1];
          Success([(n, items[0])] + rest)
  }

  predicate SortedByIndex<T>(s: seq<(nat, T)>) {
    forall i, j :: 0 <= i < j < |s| ==> s[i].0 <= s[j].0
  }

  /** Insertion behind every element with a smaller number (an equal one stays behind x). */
  function InsertByIndex<T>(x: (nat, T), s: seq<(nat, T)>): seq<(nat, T)> {
    if s == [] || x.0 <= s[0].0 then [x] + s else [s[0]] + InsertByIndex(x, s[1..])
  }

  /** `sorted(..., key=...)`: a stable sort on the key numbers. */
  function SortByIndex<T>(s: seq<(nat, T)>): seq<(nat, T)> {
    if s == [] then [] else InsertByIndex(s[0], SortByIndex(s[1..]))
  }

  lemma {:induction false} InsertMembers<T>(x: (nat, T), s: seq<(nat, T)>)
    ensures |InsertByIndex(x, s)| == |s| + 1
    ensures forall e :: e in InsertByIndex(x, s) ==> e == x || e in s
  {
    if s != [] && x.0 > s[0].0 {
      InsertMembers(x, s[1..]);
    }
  }

  lemma {:induction false} InsertSorted<T>(x: (nat, T), s: seq<(nat, T)>)
    requires SortedByIndex(s)
    ensures SortedByIndex(InsertByIndex(x, s))
  {
    if s != [] && x.0 > s[0].0 {
      var rest := s[1..];
      InsertSorted(x, rest);
      InsertMembers(x, rest);
      var t := InsertByIndex(x, rest);
      forall k | 0 <= k < |t| ensures s[0].0 <= t[k].0 {
        assert t[k] in t;
      }
      assert InsertByIndex(x, s) == [s[0]] + t;
    }
  }

  lemma {:induction false} InsertPermutes<T>(x: (nat, T), s: seq<(nat, T)>)
    ensures multiset(InsertByIndex(x, s)) == multiset([x] + s)
  {
    if s != [] && x.0 > s[0].0 {
      var rest := s[1..];
      InsertPermutes(x, rest);
      assert s == [s[0]] + rest;
      assert InsertByIndex(x, s) == [s[0]] + InsertByIndex(x, rest);
      assert multiset([x] + s) == multiset([s[0]]) + multiset([x] + rest);
    }
  }

  /** The sort yields a sorted permutation of its input. */
  lemma {:induction false} SortSorted<T>(s: seq<(nat, T)>)
    ensures SortedByIndex(SortByIndex(s))
    ensures multiset(SortByIndex(s)) == multiset(s)
  {
    if s != [] {
      SortSorted(s[1..]);
      InsertSorted(s[0], SortByIndex(s[1..]));
      InsertPermutes(s[0], SortByIndex(s[1..]));
      assert s == [s[0]] + s[1..];
    }
  }

  /** Input already in order comes out unchanged. */
  lemma {:induction false} SortKeepsSorted<T>(s: seq<(nat, T)>)
    requires SortedByIndex(s)
    ensures SortByIndex(s) == s
  {
    if s != [] {
      SortKeepsSorted(s[1..]);
      assert s == [s[0]] + s[1..];
    }
  }

  /** The elements of s whose number is n, in their order in s. */
  function WithIndex<T>(s: seq<(nat, T)>, n: nat): seq<(nat, T)> {
    if s == [] then []
    else (if s[0].0 == n then [s[0]] else []) + WithIndex(s[1..], n)
  }

  lemma WithIndexCons<T>(x: (nat, T), s: seq<(nat, T)>, n: nat)
    ensures WithIndex([x] + s, n) == (if x.0 == n then [x] else []) + WithIndex(s, n)
  {
    assert ([x] + s)[1..] == s;
  }

  /** Inserting x puts it in front of the elements with its own number, and nothing else moves among equals. */
  lemma {:induction false} InsertWithIndex<T>(x: (nat, T), s: seq<(nat, T)>, n: nat)
    ensures WithIndex(InsertByIndex(x, s), n) == (if x.0 == n then [x] else []) + WithIndex(s, n)
  {
    if s == [] || x.0 <= s[0].0 {
      WithIndexCons(x, s, n);
    } else {
      var t := InsertByIndex(x, s[1..]);
      InsertWithIndex(x, s[1..], n);
      WithIndexCons(s[0], t, n);
      WithIndexCons(s[0], s[1..], n);
      assert [s[0]] + s[1..] == s;
    }
  }

  /** Stability: the elements with any one number keep their relative order. */
  lemma {:induction false} SortStable<T>(s: seq<(nat, T)>, n: nat)
    ensures WithIndex(SortByIndex(s), n) == WithIndex(s, n)
  {
    if s != [] {
      SortStable(s[1..], n);
      InsertWithIndex(s[0], SortByIndex(s[1..]), n);
    }
  }

  /** The values of keyed items, in order. */
  function ValuesOf<T>(pairs: seq<(nat, (string, T))>): (r: seq<T>)
    ensures |r| == |pairs| && forall i :: 0 <= i < |pairs| ==> r[i] == pairs[i].1.1
  {
    seq(|pairs|, i requires 0 <= i < |pairs| => pairs[i].1.1)
  }

  /** The names one board gets from its entry. */
  function EntryNames(e: Entry): (r: Result<seq<string>, LoadError>)
    ensures e.NameList? ==> r == Success(FillBlanks(e.names))
    ensures e.OtherValue? ==> r == Success(DefaultNames(DefaultCount))
    ensures e.NameDict? ==> (r.Failure? <==> exists i :: 0 <= i < |e.items| && KeyIndex(e.items[i].0).None?)
    ensures e.NameDict? && r.Success? ==> r.value == FillBlanks(ValuesOf(SortByIndex(Keyed(e.items).value)))
  {
    match e
    case NameDict(items) =>
      (match Keyed(items)
       case Failure(err) => Failure(err)
       case Success(keyed) => Success(FillBlanks(ValuesOf(SortByIndex(keyed)))))
    case NameList(names) => Success(FillBlanks(names))
    case OtherValue => Success(DefaultNames(DefaultCount))
  }

  /**
   * A name object whose keys all carry a number loads as its values ordered by
   * key number, stably, with blanks filled: `ordered` is the items tagged with
   * their numbers, sorted, a permutation of them, and keeping the file order
   * among equal numbers.
   */
  lemma DictNames(items: seq<(string, string)>) returns (ordered: seq<(nat, (string, string))>)
    requires forall i :: 0 <= i < |items| ==> KeyIndex(items[i].0).Some?
    ensures Keyed(items).Success?
    ensures EntryNames(NameDict(items)) == Success(FillBlanks(ValuesOf(ordered)))
    ensures |ordered| == |items| && SortedByIndex(ordered)
    ensures multiset(ordered) == multiset(Keyed(items).value)
    ensures forall n :: WithIndex(ordered, n) == WithIndex(Keyed(items).value, n)
  {
    var keyed := Keyed(items).value;
    ordered := SortByIndex(keyed);
    SortSorted(keyed);
    assert |multiset(ordered)| == |multiset(keyed)|;
    forall n ensures WithIndex(ordered, n) == WithIndex(keyed, n) {
      SortStable(keyed, n);
    }
  }

  /** The loop of `_load_switch_names` over the sorted board entries. */
  function NamesOfEntries(ordered: seq<(nat, (string, Entry))>): (r: Result<seq<(string, seq<string>)>, LoadError>)
    ensures r.Success? ==> |r.value| == |ordered| && forall i :: 0 <= i < |ordered| ==>
      r.value[i].0 == ordered[i].1.0 && EntryNames(ordered[i].1.1) == Success(r.value[i].1)
  {
    if ordered == [] then Success([])
    else
      match EntryNames(ordered[0].1.1)
      case Failure(e) => Failure(e)
      case Success(names) =>
        match NamesOfEntries(ordered[1..])
        case Failure(e) => Failure(e)
        case Success(rest) => Success([(ordered[0].1.0, names)] + rest)
  }

  /** What `_load_switch_names` returns for the `switch_names` object (None: key absent). */
  function LoadedNames(switchNames: Option<Config>): Result<seq<(string, seq<string>)>, LoadError> {
    var raw := match switchNames case Some(c) => c case None => [];
    match Keyed(raw)
    case Failure(e) => Failure(e)
    case Success(keyed) => NamesOfEntries(SortByIndex(keyed))
  }

  function Prepend(done: seq<(string, seq<string>)>, r: Result<seq<(string, seq<string>)>, LoadError>)
    : Result<seq<(string, seq<string>)>, LoadError>
  {
    match r
    case Failure(e) => Failure(e)
    case Success(rest) => Success(done + rest)
  }

  /** `_load_switch_names`: order the boards by key number, then fill `result` board by board. */
  method LoadSwitchNames(switchNames: Option<Config>) returns (r: Result<seq<(string, seq<string>)>, LoadError>)
    ensures r == LoadedNames(switchNames)
  {
    var raw := match switchNames case Some(c) => c case None => [];
    var keyed := Keyed(raw);
    if keyed.Failure? {
      return Failure(keyed.error);
    }
    var ordered := SortByIndex(keyed.value);
    assert LoadedNames(switchNames) == NamesOfEntries(ordered);
    var result: seq<(string, seq<string>)> := [];
    var i := 0;
    assert ordered[i..] == ordered;
    PrependNothing(NamesOfEntries(ordered));
    while i < |ordered|
      invariant 0 <= i <= |ordered|
      invariant NamesOfEntries(ordered) == Prepend(result, NamesOfEntries(ordered[i..]))
    {
      assert ordered[i..][1..] == ordered[i + 1..];
      var names := EntryNames(ordered[i].1.1);
      if names.Failure? {
        return Failure(names.error);
      }
      PrependStep(result, ordered[i..]);
      result := result + [(ordered[i].1.0, names.value)];
      i := i + 1;
    }
    assert ordered[i..] == [];
    assert result + [] == result;
    r := Success(result);
  }

  lemma PrependNothing(r: Result<seq<(string, seq<string>)>, LoadError>)
    ensures Prepend([], r) == r
  {
    if r.Success? {
      assert [] + r.value == r.value;
    }
  }

  /** One board of the loop: its names move from the pending part to `result`. */
  lemma PrependStep(done: seq<(string, seq<string>)>, pending: seq<(nat, (string, Entry))>)
    requires pending != [] && EntryNames(pending[0].1.1).Success?
    ensures Prepend(done, NamesOfEntries(pending))
         == Prepend(done + [(pending[0].1.0, EntryNames(pending[0].1.1).value)], NamesOfEntries(pending[1..]))
  {
    var head := (pending[0].1.0, EntryNames(pending[0].1.1).value);
    var tail := NamesOfEntries(pending[1..]);
    assert NamesOfEntries(pending) == Prepend([head], tail);
    if tail.Success? {
      assert done + ([head] + tail.value) == (done + [head]) + tail.value;
    }
  }

  function KeysOf<T>(s: seq<(string, T)>): (r: seq<string>)
    ensures |r| == |s| && forall i :: 0 <= i < |s| ==> r[i] == s[i].0
  {
    seq(|s|, i requires 0 <= i < |s| => s[i].0)
  }

  /** The configured items, an absent `switch_names` object reading as an empty one. */
  function RawItems(switchNames: Option<Config>): Config {
    match switchNames case Some(c) => c case None => []
  }

  /** The sorted, keyed items the loop of `_load_switch_names` visits and what it yields. */
  lemma LoadedView(switchNames: Option<Config>) returns (keyed: seq<(nat, (string, Entry))>, ordered: seq<(nat, (string, Entry))>)
    requires LoadedNames(switchNames).Success?
    ensures Keyed(RawItems(switchNames)) == Success(keyed)
    ensures ordered == SortByIndex(keyed) && SortedByIndex(ordered)
    ensures multiset(ordered) == multiset(keyed) && |ordered| == |keyed|
    ensures NamesOfEntries(ordered) == LoadedNames(switchNames)
  {
    keyed := Keyed(RawItems(switchNames)).value;
    ordered := SortByIndex(keyed);
    SortSorted(keyed);
    assert |multiset(ordered)| == |multiset(keyed)|;
  }

  /** Loaded boards are the configured ones: the same keys, each as often as configured. */
  lemma LoadedKeys(switchNames: Option<Config>)
    requires LoadedNames(switchNames).Success?
    ensures |LoadedNames(switchNames).value| == |RawItems(switchNames)|
    ensures multiset(KeysOf(LoadedNames(switchNames).value)) == multiset(KeysOf(RawItems(switchNames)))
  {
    var keyed, ordered := LoadedView(switchNames);
    KeysPermuted(keyed, ordered, RawItems(switchNames), LoadedNames(switchNames).value);
  }

  lemma KeysPermuted(keyed: seq<(nat, (string, Entry))>, ordered: seq<(nat, (string, Entry))>, raw: Config, r: seq<(string, seq<string>)>)
    requires Keyed(raw) == Success(keyed)
    requires multiset(ordered) == multiset(keyed) && |ordered| == |keyed|
    requires |r| == |ordered| && forall i :: 0 <= i < |r| ==> r[i].0 == ordered[i].1.0
    ensures multiset(KeysOf(r)) == multiset(KeysOf(raw))
  {
    assert KeysOf(r) == KeyNames(ordered);
    PairedKeys(keyed, ordered);
    assert KeysOf(raw) == KeyNames(keyed);
  }

  /** Loaded boards come in nondecreasing key-number order. */
  lemma LoadedOrdered(switchNames: Option<Config>)
    requires LoadedNames(switchNames).Success?
    ensures var r := LoadedNames(switchNames).value;
      && (forall i :: 0 <= i < |r| ==> KeyIndex(r[i].0).Some?)
      && (forall i, j :: 0 <= i < j < |r| ==> KeyIndex(r[i].0).value <= KeyIndex(r[j].0).value)
  {
    var keyed, ordered := LoadedView(switchNames);
    OrderedKeys(keyed, ordered, RawItems(switchNames), LoadedNames(switchNames).value);
  }

  /** Each loaded board has the names its own configured entry gives. */
  lemma LoadedEntries(switchNames: Option<Config>)
    requires LoadedNames(switchNames).Success?
    ensures var r := LoadedNames(switchNames).value;
      var raw := RawItems(switchNames);
      forall i :: 0 <= i < |r| ==>
        exists j :: 0 <= j < |raw| && raw[j].0 == r[i].0 && EntryNames(raw[j].1) == Success(r[i].1)
  {
    var keyed, ordered := LoadedView(switchNames);
    OrderedEntries(keyed, ordered, RawItems(switchNames), LoadedNames(switchNames).value);
  }

  lemma OrderedKeys(keyed: seq<(nat, (string, Entry))>, ordered: seq<(nat, (string, Entry))>, raw: Config, r: seq<(string, seq<string>)>)
    requires |keyed| == |raw|
    requires forall i :: 0 <= i < |raw| ==> keyed[i].1 == raw[i] && KeyIndex(raw[i].0) == Some(keyed[i].0)
    requires multiset(ordered) == multiset(keyed) && SortedByIndex(ordered)
    requires |r| == |ordered| && forall i :: 0 <= i < |r| ==> r[i].0 == ordered[i].1.0
    ensures forall i :: 0 <= i < |r| ==> KeyIndex(r[i].0) == Some(ordered[i].0)
    ensures forall i, j :: 0 <= i < j < |r| ==> KeyIndex(r[i].0).value <= KeyIndex(r[j].0).value
  {
    forall i | 0 <= i < |r|
      ensures KeyIndex(r[i].0) == Some(ordered[i].0)
    {
      assert ordered[i] in multiset(keyed);
      var _ := FromKeyed(raw, keyed, ordered[i]);
    }
  }

  lemma OrderedEntries(keyed: seq<(nat, (string, Entry))>, ordered: seq<(nat, (string, Entry))>, raw: Config, r: seq<(string, seq<string>)>)
    requires |keyed| == |raw|
    requires forall i :: 0 <= i < |raw| ==> keyed[i].1 == raw[i] && KeyIndex(raw[i].0) == Some(keyed[i].0)
    requires multiset(ordered) == multiset(keyed)
    requires |r| == |ordered| && forall i :: 0 <= i < |r| ==>
      r[i].0 == ordered[i].1.0 && EntryNames(ordered[i].1.1) == Success(r[i].1)
    ensures forall i :: 0 <= i < |r| ==>
      exists j :: 0 <= j < |raw| && raw[j].0 == r[i].0 && EntryNames(raw[j].1) == Success(r[i].1)
  {
    forall i | 0 <= i < |r|
      ensures exists j :: 0 <= j < |raw| && raw[j].0 == r[i].0 && EntryNames(raw[j].1) == Success(r[i].1)
    {
      assert ordered[i] in multiset(keyed);
      var w := FromKeyed(raw, keyed, ordered[i]);
      assert raw[w].0 == r[i].0 && EntryNames(raw[w].1) == Success(r[i].1);
    }
    assert forall i :: 0 <= i < |r| ==>
      exists j :: 0 <= j < |raw| && raw[j].0 == r[i].0 && EntryNames(raw[j].1) == Success(r[i].1);
  }

  /** Every element of the keyed sequence is a configured item with its key number. */
  lemma FromKeyed<T>(raw: seq<(string, T)>, keyed: seq<(nat, (string, T))>, e: (nat, (string, T))) returns (j: nat)
    requires |keyed| == |raw| && e in keyed
    requires forall i :: 0 <= i < |raw| ==> keyed[i].1 == raw[i] && KeyIndex(raw[i].0) == Some(keyed[i].0)
    ensures KeyIndex(e.1.0) == Some(e.0)
    ensures j < |raw| && raw[j] == e.1
  {
    j :| 0 <= j < |keyed| && keyed[j] == e;
  }

  /** The keys of keyed items, in order. */
  function KeyNames<T>(pairs: seq<(nat, (string, T))>): (r: seq<string>)
    ensures |r| == |pairs| && forall i :: 0 <= i < |pairs| ==> r[i] == pairs[i].1.0
  {
    seq(|pairs|, i requires 0 <= i < |pairs| => pairs[i].1.0)
  }

  /** Projecting the keys of two permuted sequences gives permuted key sequences. */
  lemma {:induction false} PairedKeys<T>(a: seq<(nat, (string, T))>, b: seq<(nat, (string, T))>)
    requires multiset(a) == multiset(b)
    ensures multiset(KeyNames(a)) == multiset(KeyNames(b))
    decreases |a|
  {
    if a != [] {
      var x := a[0];
      assert x in multiset(b);
      var j :| 0 <= j < |b| && b[j] == x;
      var a' := a[1..];
      var b' := b[..j] + b[j + 1..];
      assert a == [x] + a';
      RemoveOne(x, a', b, j);
      PairedKeys(a', b');
      KeyNamesHead(a);
      KeyNamesDrop(b, j);
      RemoveOne(x.1.0, KeyNames(a'), KeyNames(b), j);
    } else {
      assert |b| == |multiset(b)| == 0;
    }
  }

  lemma KeyNamesHead<T>(a: seq<(nat, (string, T))>)
    requires a != []
    ensures KeyNames(a) == [a[0].1.0] + KeyNames(a[1..])
  {
    forall i | 0 <= i < |a| ensures KeyNames(a)[i] == ([a[0].1.0] + KeyNames(a[1..]))[i] {
      if i > 0 { assert a[i] == a[1..][i - 1]; }
    }
  }

  lemma KeyNamesDrop<T>(b: seq<(nat, (string, T))>, j: nat)
    requires j < |b|
    ensures KeyNames(b[..j] + b[j + 1..]) == KeyNames(b)[..j] + KeyNames(b)[j + 1..]
  {
    var b' := b[..j] + b[j + 1..];
    forall i | 0 <= i < |b'| ensures KeyNames(b')[i] == (KeyNames(b)[..j] + KeyNames(b)[j + 1..])[i] {
      if i < j { assert b'[i] == b[i]; } else { assert b'[i] == b[i + 1]; }
    }
  }

  /** Taking the same element out of two permuted sequences leaves permuted sequences. */
  lemma RemoveOne<U>(x: U, a: seq<U>, b: seq<U>, j: nat)
    requires j < |b| && b[j] == x
    ensures multiset([x] + a) == multiset(b) <==> multiset(a) == multiset(b[..j] + b[j + 1..])
  {
    assert b == b[..j] + [x] + b[j + 1..];
    var b' := b[..j] + b[j + 1..];
    assert multiset(b) == multiset(b[..j]) + multiset([x]) + multiset(b[j + 1..]);
    assert multiset(b') == multiset(b[..j]) + multiset(b[j + 1..]);
    assert multiset([x] + a) == multiset([x]) + multiset(a);
    assert multiset(b) == multiset([x]) + multiset(b');
    assert multiset(a) == multiset([x] + a) - multiset([x]);
    assert multiset(b') == multiset(b) - multiset([x]);
  }

  /** The name object `on_save_config` writes for one board: `sw_j` -> name of switch j. */
  function SwitchItems(names: seq<string>): (r: seq<(string, string)>)
    ensures |r| == |names|
    ensures forall j :: 0 <= j < |names| ==> r[j] == ("sw_" + NatToString(j), names[j])
    ensures forall j :: 0 <= j < |names| ==> KeyIndex(r[j].0) == Some(j)
  {
    var r := seq(|names|, j requires 0 <= j < |names| => ("sw_" + NatToString(j), names[j]));
    assert forall j :: 0 <= j < |names| ==> KeyIndex(r[j].0) == Some(j) by {
      forall j | 0 <= j < |names| ensures KeyIndex(r[j].0) == Some(j) {
        KeyIndexOf("sw", j);
        assert r[j].0 == "sw" + "_" + NatToString(j);
      }
    }
    r
  }

  /** The `switch_names` object `on_save_config` builds from the boards' keys and names. */
  function SavedConfig(keys: seq<string>, names: seq<seq<string>>): (c: Config)
    requires |keys| == |names|
    ensures |c| == |keys|
    ensures forall i :: 0 <= i < |keys| ==> c[i] == (keys[i], NameDict(SwitchItems(names[i])))
  {
    seq(|keys|, i requires 0 <= i < |keys| => (keys[i], NameDict(SwitchItems(names[i]))))
  }

  /** Keys in nondecreasing key-number order, every one readable. */
  predicate KeysInOrder(keys: seq<string>) {
    && (forall i :: 0 <= i < |keys| ==> KeyIndex(keys[i]).Some?)
    && (forall i, j :: 0 <= i < j < |keys| ==> KeyIndex(keys[i]).value <= KeyIndex(keys[j]).value)
  }

  /** Keyed items whose key numbers are already in order. */
  lemma KeyedInOrder<T>(items: seq<(string, T)>)
    requires KeysInOrder(KeysOf(items))
    ensures Keyed(items).Success? && SortByIndex(Keyed(items).value) == Keyed(items).value
  {
    var k := Keyed(items).value;
    assert SortedByIndex(k) by {
      forall i, j | 0 <= i < j < |k| ensures k[i].0 <= k[j].0 {
        assert KeysOf(items)[i] == items[i].0 && KeysOf(items)[j] == items[j].0;
      }
    }
    SortKeepsSorted(k);
  }

  /** Reading back a board's saved name object gives its names with blanks filled. */
  lemma LoadSavedEntry(names: seq<string>)
    ensures EntryNames(NameDict(SwitchItems(names))) == Success(FillBlanks(names))
  {
    var items := SwitchItems(names);
    KeyedInOrder(items);
    var k := Keyed(items).value;
    assert ValuesOf(k) == names;
  }

  /**
   * Saving and loading again: with board keys in key-number order (as loading
   * produces them), every board comes back under its key with its names, blanks
   * replaced by "SW i".
   */
  lemma LoadAfterSave(keys: seq<string>, names: seq<seq<string>>)
    requires |keys| == |names| && KeysInOrder(keys)
    ensures LoadedNames(Some(SavedConfig(keys, names)))
         == Success(seq(|keys|, i requires 0 <= i < |keys| => (keys[i], FillBlanks(names[i]))))
  {
    var c := SavedConfig(keys, names);
    assert KeysOf(c) == keys;
    KeyedInOrder(c);
    var ordered := Keyed(c).value;
    forall i | 0 <= i < |keys| ensures EntryNames(ordered[i].1.1) == Success(FillBlanks(names[i])) {
      LoadSavedEntry(names[i]);
    }
    var want := seq(|keys|, i requires 0 <= i < |keys| => (keys[i], FillBlanks(names[i])));
    SavedEntriesLoad(ordered, want);
  }

  /** Entries that each load to the wanted names load, in order, to all of them. */
  lemma {:induction false} SavedEntriesLoad(ordered: seq<(nat, (string, Entry))>, want: seq<(string, seq<string>)>)
    requires |ordered| == |want|
    requires forall i :: 0 <= i < |want| ==>
      ordered[i].1.0 == want[i].0 && EntryNames(ordered[i].1.1) == Success(want[i].1)
    ensures NamesOfEntries(ordered) == Success(want)
    decreases |want|
  {
    if want != [] {
      SavedEntriesLoad(ordered[1..], want[1..]);
      assert want == [(ordered[0].1.0, want[0].1)] + want[1..];
    }
  }

  /** A configuration without a `switch_names` object loads as no boards; an entry that is
      neither an object nor a list gets the twelve default names. */
  lemma LoadDefaults(key: string)
    requires KeyIndex(key).Some?
    ensures LoadedNames(None) == Success([])
    ensures LoadedNames(Some([(key, OtherValue)])) == Success([(key, DefaultNames(DefaultCount))])
  {
    var item: (nat, (string, Entry)) := (KeyIndex(key).value, (key, OtherValue));
    var one := [item];
    assert Keyed([(key, OtherValue)]).value == one;
    assert SortByIndex(one) == one;
    assert one[1..] == [];
    assert [(key, DefaultNames(DefaultCount))] + [] == [(key, DefaultNames(DefaultCount))];
    assert NamesOfEntries(one) == Success([(key, DefaultNames(DefaultCount))]);
  }
}
