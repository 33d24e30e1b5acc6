/** Environment blocks as read by parse_environ of src/ai_workload.rs. */
module Environ {
  import opened Text

  const NUL: char := 0 as char

  /** splitn(2, '=') of one entry: key and value, or nothing without an equals sign. */
  function Entry(s: string): Option<(string, string)> {
    var at := IndexOf(s, '=');
    if at == |s| then None else Some((s[..at], s[at + 1..]))
  }

  /** Entries collected into a map, later ones overwriting earlier ones. */
  function Collect(entries: seq<string>): map<string, string> {
    if entries == [] then map[]
    else
      var n := |entries| - 1;
      match Entry(entries[n])
      case None => Collect(entries[..n])
      case Some((key, value)) => Collect(entries[..n])[key := value]
  }

  function ParseEnviron(environ: string): map<string, string> {
    Collect(Split(environ, NUL))
  }

  // ---- printing ----

  datatype Pair = Pair(key: string, value: string)

  predicate IsPair(p: Pair) {
    '\0' !in p.key && '\0' !in p.value && '=' !in p.key
  }

  predicate ArePairs(pairs: seq<Pair>) {
    forall i :: 0 <= i < |pairs| ==> IsPair(pairs[i])
  }

  function PairText(p: Pair): string {
    p.key + ['='] + p.value
  }

  function Texts(pairs: seq<Pair>): (r: seq<string>)
    ensures |r| == |pairs| && forall i :: 0 <= i < |r| ==> r[i] == PairText(pairs[i])
  {
    seq(|pairs|, i requires 0 <= i < |pairs| => PairText(pairs[i]))
  }

  function Separated(pairs: seq<Pair>): string {
    Join(Texts(pairs), "\0")
  }

  function Terminated(pairs: seq<Pair>): string {
    if pairs == [] then "" else Separated(pairs) + "\0"
  }

  /** The last pair for each key. */
  ghost predicate LastWins(m: map<string, string>, pairs: seq<Pair>) {
    && (forall k :: k in m <==> HasKey(pairs, k))
    && (forall i :: 0 <= i < |pairs| && (forall j :: i < j < |pairs| ==> pairs[j].key != pairs[i].key) ==>
          pairs[i].key in m && m[pairs[i].key] == pairs[i].value)
  }

  lemma EntryReads(p: Pair)
    requires IsPair(p)
    ensures Entry(PairText(p)) == Some((p.key, p.value))
  {
    IndexOfIs(p.key, '=', p.value);
    assert PairText(p)[..|p.key|] == p.key && PairText(p)[|p.key| + 1..] == p.value;
  }

  lemma CollectNext(pairs: seq<Pair>)
    requires pairs != [] && ArePairs(pairs)
    ensures var n := |pairs| - 1;
      Collect(Texts(pairs)) == Collect(Texts(pairs[..n]))[pairs[n].key := pairs[n].value]
  {
    var n := |pairs| - 1;
    assert Texts(pairs)[..n] == Texts(pairs[..n]);
    EntryReads(pairs[n]);
    hide PairText, Entry;
  }

  predicate HasKey(pairs: seq<Pair>, k: string) {
    exists i :: 0 <= i < |pairs| && pairs[i].key == k
  }

  lemma {:induction false} CollectKeys(pairs: seq<Pair>, k: string)
    requires ArePairs(pairs)
    ensures k in Collect(Texts(pairs)) <==> HasKey(pairs, k)
  {
    if pairs == [] {
    } else {
      var n := |pairs| - 1;
      CollectNext(pairs);
      CollectKeys(pairs[..n], k);
      hide Collect, Texts;
      if HasKey(pairs[..n], k) {
        var i :| 0 <= i < n && pairs[..n][i].key == k;
        assert pairs[i].key == k;
      }
      if HasKey(pairs, k) && pairs[n].key != k {
        var i :| 0 <= i < |pairs| && pairs[i].key == k;
        assert pairs[..n][i].key == k;
      }
    }
  }

  lemma {:induction false} CollectValue(pairs: seq<Pair>, i: nat)
    requires ArePairs(pairs) && i < |pairs| && forall j :: i < j < |pairs| ==> pairs[j].key != pairs[i].key
    ensures pairs[i].key in Collect(Texts(pairs)) && Collect(Texts(pairs))[pairs[i].key] == pairs[i].value
  {
    var n := |pairs| - 1;
    CollectNext(pairs);
    if i < n {
      assert pairs[n].key != pairs[i].key;
      CollectValue(pairs[..n], i);
    }
  }

  lemma CollectsLast(pairs: seq<Pair>)
    requires ArePairs(pairs)
    ensures LastWins(Collect(Texts(pairs)), pairs)
  {
    hide Collect, Texts;
    forall k
      ensures k in Collect(Texts(pairs)) <==> HasKey(pairs, k)
    {
      CollectKeys(pairs, k);
    }
    forall i | 0 <= i < |pairs| && forall j :: i < j < |pairs| ==> pairs[j].key != pairs[i].key
      ensures pairs[i].key in Collect(Texts(pairs)) && Collect(Texts(pairs))[pairs[i].key] == pairs[i].value
    {
      CollectValue(pairs, i);
    }
  }

  /** An empty entry, as a trailing NUL leaves, adds nothing. */
  lemma CollectEmpty(entries: seq<string>)
    ensures Collect(entries + [""]) == Collect(entries)
  {
    assert (entries + [""])[..|entries|] == entries;
    assert Entry("").None?;
  }

  lemma PairTextsClean(pairs: seq<Pair>)
    requires ArePairs(pairs)
    ensures forall t :: t in Texts(pairs) ==> NUL !in t
  {
    forall i | 0 <= i < |pairs|
      ensures NUL !in Texts(pairs)[i]
    {
      assert NUL !in ['='];
    }
  }

  lemma SplitNothing(c: char)
    ensures Split("", c) == [""]
  {
  }

  lemma {:induction false} SplitTerminated(parts: seq<string>, c: char)
    requires parts != [] && forall p :: p in parts ==> c !in p
    ensures Split(Join(parts, [c]) + [c], c) == parts + [""]
  {
    var first, rest := parts[0], parts[1..];
    assert first in parts;
    SplitNothing(c);
    hide Split;
    if rest == [] {
      SplitFirst(first, c, "");
      assert first + [c] + "" == Join(parts, [c]) + [c];
      assert [first] + [""] == parts + [""];
    } else {
      assert forall p :: p in rest ==> p in parts;
      SplitTerminated(rest, c);
      SplitFirst(first, c, Join(rest, [c]) + [c]);
      var tail := Join(rest, [c]);
      assert Join(parts, [c]) == first + [c] + tail;
      hide Join;
      assert (first + [c] + tail) + [c] == first + [c] + (tail + [c]);
      assert [first] + (rest + [""]) == parts + [""];
    }
  }

  /** Printing pairs NUL-separated and parsing the block gives, for each key, its last value, and no other key. */
  lemma SeparatedRoundTrip(pairs: seq<Pair>)
    requires ArePairs(pairs)
    ensures LastWins(ParseEnviron(Separated(pairs)), pairs)
  {
    if pairs == [] {
      CollectEmpty([]);
      assert Split("", NUL) == [] + [""];
    } else {
      PairTextsClean(pairs);
      SplitJoin(Texts(pairs), NUL);
    }
    CollectsLast(pairs);
  }

  /** NUL-terminated blocks, as the kernel writes them, parse to the same map. */
  lemma TerminatedRoundTrip(pairs: seq<Pair>)
    requires ArePairs(pairs)
    ensures ParseEnviron(Terminated(pairs)) == ParseEnviron(Separated(pairs))
    ensures LastWins(ParseEnviron(Terminated(pairs)), pairs)
  {
    SeparatedRoundTrip(pairs);
    if pairs != [] {
      PairTextsClean(pairs);
      SplitTerminated(Texts(pairs), NUL);
      SplitJoin(Texts(pairs), NUL);
      CollectEmpty(Texts(pairs));
    }
  }

  /** An entry of a block: a pair, or text without an equals sign. */
  datatype Item = Set(pair: Pair) | Stray(text: string)

  predicate IsItem(item: Item) {
    match item
    case Set(p) => IsPair(p)
    case Stray(t) => '\0' !in t && '=' !in t
  }

  predicate AreItems(items: seq<Item>) {
    forall i :: 0 <= i < |items| ==> IsItem(items[i])
  }

  function ItemText(item: Item): string {
    match item
    case Set(p) => PairText(p)
    case Stray(t) => t
  }

  function ItemTexts(items: seq<Item>): (r: seq<string>)
    ensures |r| == |items| && forall i :: 0 <= i < |r| ==> r[i] == ItemText(items[i])
  {
    seq(|items|, i requires 0 <= i < |items| => ItemText(items[i]))
  }

  /** The pairs among the entries, in order. */
  function PairsOf(items: seq<Item>): (r: seq<Pair>)
    ensures AreItems(items) ==> ArePairs(r)
  {
    if items == [] then []
    else
      var n := |items| - 1;
      PairsOf(items[..n]) + if items[n].Set? then [items[n].pair] else []
  }

  lemma StrayIsSkipped(t: string)
    requires '=' !in t
    ensures Entry(t) == None
  {
    FoundInside(t, '=');
  }

  lemma CollectItem(items: seq<Item>)
    requires items != [] && AreItems(items)
    ensures var n := |items| - 1;
      var before := Collect(ItemTexts(items[..n]));
      Collect(ItemTexts(items))
      == if items[n].Set? then before[items[n].pair.key := items[n].pair.value] else before
  {
    var n := |items| - 1;
    assert ItemTexts(items)[..n] == ItemTexts(items[..n]);
    assert IsItem(items[n]);
    match items[n] {
      case Set(p) => EntryReads(p);
      case Stray(t) => StrayIsSkipped(t);
    }
    hide PairText, Entry;
  }

  lemma CollectPair(pairs: seq<Pair>, p: Pair)
    requires ArePairs(pairs) && IsPair(p)
    ensures Collect(Texts(pairs + [p])) == Collect(Texts(pairs))[p.key := p.value]
  {
    assert (pairs + [p])[..|pairs|] == pairs;
    CollectNext(pairs + [p]);
  }

  lemma {:induction false} StraysAreSkipped(items: seq<Item>)
    requires AreItems(items)
    ensures Collect(ItemTexts(items)) == Collect(Texts(PairsOf(items)))
  {
    if items == [] {
    } else {
      var n := |items| - 1;
      StraysAreSkipped(items[..n]);
      CollectItem(items);
      hide Collect, Texts, ItemTexts;
      if items[n].Set? {
        assert IsItem(items[n]);
        CollectPair(PairsOf(items[..n]), items[n].pair);
      } else {
        assert PairsOf(items) == PairsOf(items[..n]);
      }
    }
  }

  /** Every block, entries without an equals sign and empty ones included, gives each key its last value. */
  lemma BlockReads(items: seq<Item>)
    requires items != [] && AreItems(items)
    ensures LastWins(ParseEnviron(Join(ItemTexts(items), "\0")), PairsOf(items))
  {
    forall i | 0 <= i < |items|
      ensures NUL !in ItemTexts(items)[i]
    {
      assert IsItem(items[i]);
      assert NUL !in ['='];
    }
    SplitJoin(ItemTexts(items), NUL);
    StraysAreSkipped(items);
    CollectsLast(PairsOf(items));
    hide Collect, Split, Join, PairsOf, LastWins;
  }

  /** The map is determined by the pairs: two maps that follow them are equal. */
  lemma LastWinsIsUnique(m: map<string, string>, n: map<string, string>, pairs: seq<Pair>)
    requires LastWins(m, pairs) && LastWins(n, pairs)
    ensures m == n
  {
    forall k
      ensures k in m <==> k in n
      ensures k in m ==> m[k] == n[k]
    {
      if k in m {
        var i :| 0 <= i < |pairs| && pairs[i].key == k;
        var l := LastIndex(pairs, k, i);
      }
    }
  }

  lemma {:induction false} LastIndex(pairs: seq<Pair>, k: string, i: nat) returns (l: nat)
    requires i < |pairs| && pairs[i].key == k
    ensures l < |pairs| && pairs[l].key == k && forall j :: l < j < |pairs| ==> pairs[j].key != k
    decreases |pairs| - i
  {
    if j: nat :| i < j < |pairs| && pairs[j].key == k {
      l := LastIndex(pairs, k, j);
    } else {
      l := i;
    }
  }
}
