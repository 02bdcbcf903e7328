/** `common.MorseMap`: an immutable map from Morse patterns to characters, stored as a complete binary
    tree flattened in in-order: the root is at index 63, the dit subtree at 0..62 and the dah subtree at
    64..126, and each step halves the distance to the children. A dit moves left, a dah moves right. */
module MorseMaps {
  import opened Runtime

  /** Maximum length of a decodable Morse pattern. */
  const MaxMorseLength: nat := 6

  /** The character marking a pattern without a translation. */
  const INV: char := 0 as char

  /** The flattened translation tree: the node for a pattern sits at the index reached by the walk in
      `MorseMap.Walk`; `INV` marks positions without a character. */
  const MorseTree: seq<char> :=
    (([INV, '5', INV, 'H', INV, '4', INV, 'S', INV, INV, INV, 'V', INV, '3', INV, 'I']
      + [INV, INV, INV, 'F', INV, INV, INV, 'U', '?', INV, '_', INV, INV, '2', INV, 'E'])
     + ([INV, '&', INV, 'L', '"', INV, INV, 'R', INV, '+', '.', INV, INV, INV, INV, 'A']
      + [INV, INV, INV, 'P', '@', INV, INV, 'W', INV, INV, INV, 'J', '\'', '1', INV, INV]))
    + (([INV, '6', '-', 'B', INV, '=', INV, 'D', INV, '/', INV, 'X', INV, INV, INV, 'N']
      + [INV, INV, INV, 'C', ';', INV, '!', 'K', INV, '(', ')', 'Y', INV, INV, INV, 'T'])
     + ([INV, '7', INV, 'Z', INV, INV, ',', 'G', INV, INV, INV, 'Q', INV, INV, INV, 'M']
      + [':', '8', INV, INV, INV, INV, INV, 'O', INV, '9', INV, INV, INV, '0', INV]))

  /** `MORSE_TREE.length`. */
  const TreeSize: nat := 127

  /** The index of the root: `MORSE_TREE.length / 2`. */
  const Root: int := TreeSize / 2

  /** The step the walk takes from the root: `(treeIndex + 1) / 2`. */
  const RootAdjustment: nat := (Root + 1) / 2

  /** How many more symbols a walk can take once its step is `adjustment`. */
  function Levels(adjustment: nat): nat
    decreases adjustment
  {
    if adjustment == 0 then 0 else 1 + Levels(adjustment / 2)
  }

  /** How far the subtree below a node with step `adjustment` reaches to either side. */
  function Span(adjustment: nat): nat {
    if adjustment == 0 then 0 else 2 * adjustment - 1
  }

  /** A node, with the step taken from it, whose whole subtree lies inside the tree array. */
  predicate Within(treeIndex: int, adjustment: int) {
    adjustment >= 0 && 0 <= treeIndex - Span(adjustment) && treeIndex + Span(adjustment) < TreeSize
  }

  /** The walk from the root covers the whole tree, with room for exactly six symbols; the step it
      starts with is also the `(MORSE_TREE.length + 1) / 4` that `entrySet` passes. */
  lemma RootWithin()
    ensures Within(Root, RootAdjustment) && Levels(RootAdjustment) == MaxMorseLength
    ensures |MorseTree| == TreeSize && RootAdjustment == (TreeSize + 1) / 4
  {
    assert Levels(1) == 1 && Levels(2) == 2 && Levels(4) == 3 && Levels(8) == 4 && Levels(16) == 5;
  }

  /** Both children of an inner node have their subtrees inside the parent's. */
  lemma WithinChildren(treeIndex: int, adjustment: int)
    requires Within(treeIndex, adjustment)
    ensures Within(treeIndex - adjustment, adjustment / 2)
    ensures Within(treeIndex + adjustment, adjustment / 2)
  {
  }

  /** A Morse code translation map with the characters used for dits and dahs. */
  datatype MorseMap = MorseMap(dit: char, dah: char) {

    /** The tree index a pattern leads to from `treeIndex` with step `adjustment`: a dit moves left
        and a dah right by the step, which then halves. None when a symbol is neither. */
    function Walk(pattern: string, treeIndex: int, adjustment: nat): (r: Option<int>)
      ensures r.None? <==> exists j :: 0 <= j < |pattern| && pattern[j] != dit && pattern[j] != dah
      decreases |pattern|
    {
      if pattern == [] then
        Some(treeIndex)
      else
        var rest := Walk(pattern[1..],
          if pattern[0] == dit then treeIndex - adjustment else treeIndex + adjustment, adjustment / 2);
        assert rest.None? <==> exists j :: 1 <= j < |pattern| && pattern[j] != dit && pattern[j] != dah by {
          if rest.None? {
            var j :| 0 <= j < |pattern[1..]| && pattern[1..][j] != dit && pattern[1..][j] != dah;
            assert pattern[j + 1] == pattern[1..][j];
          }
          if exists j :: 1 <= j < |pattern| && pattern[j] != dit && pattern[j] != dah {
            var j :| 1 <= j < |pattern| && pattern[j] != dit && pattern[j] != dah;
            assert pattern[1..][j - 1] == pattern[j];
          }
        }
        if pattern[0] != dit && pattern[0] != dah then None else rest
    }

    /** A walk that starts inside the tree never leaves the tree array, whatever its length: once the
        step is 0 it no longer moves. */
    lemma {:induction false} WalkInTree(pattern: string, treeIndex: int, adjustment: nat)
      requires Within(treeIndex, adjustment)
      ensures Walk(pattern, treeIndex, adjustment).Some? ==> 0 <= Walk(pattern, treeIndex, adjustment).value < TreeSize
      decreases |pattern|
    {
      if pattern != [] {
        WithinChildren(treeIndex, adjustment);
        WalkInTree(pattern[1..], if pattern[0] == dit then treeIndex - adjustment else treeIndex + adjustment,
          adjustment / 2);
      }
    }

    /** The character a pattern translates to, `INV` when it has none: patterns that are empty, longer
        than six symbols or contain another character have none. (The walk never leaves the tree, by
        WalkInTree, so the bounds test only makes the definition total.) */
    function Translate(pattern: string): (r: char)
      ensures |pattern| == 0 || |pattern| > MaxMorseLength ==> r == INV
      ensures (exists j :: 0 <= j < |pattern| && pattern[j] != dit && pattern[j] != dah) ==> r == INV
    {
      if |pattern| == 0 || |pattern| > MaxMorseLength then
        INV
      else
        match Walk(pattern, Root, RootAdjustment)
        case None => INV
        case Some(i) => if 0 <= i < |MorseTree| then MorseTree[i] else INV
    }

    /** The map's value for a key: absent exactly when the key has no translation. */
    function Lookup(key: string): (r: Option<char>)
      ensures r.None? <==> Translate(key) == INV
      ensures r.Some? ==> r.value == Translate(key) && r.value != INV
    {
      if Translate(key) == INV then None else Some(Translate(key))
    }

    /** `translateMorse`: walks the tree from the root, moving by a halving step per symbol; the index
        stays inside the tree throughout. */
    method TranslateMorse(morsePattern: string) returns (r: char)
      ensures r == Translate(morsePattern)
    {
      if |morsePattern| == 0 || |morsePattern| > MaxMorseLength {
        return INV;
      }
      var treeIndex := |MorseTree| / 2;
      var adjustment := (treeIndex + 1) / 2;
      RootWithin();
      for i := 0 to |morsePattern|
        invariant Within(treeIndex, adjustment) && |morsePattern| - i <= Levels(adjustment)
        invariant Walk(morsePattern, Root, RootAdjustment) == Walk(morsePattern[i..], treeIndex, adjustment)
      {
        var blip := morsePattern[i];
        WithinChildren(treeIndex, adjustment);
        assert morsePattern[i..][1..] == morsePattern[i + 1..];
        if blip == dit {
          treeIndex := treeIndex - adjustment;
        } else if blip == dah {
          treeIndex := treeIndex + adjustment;
        } else {
          return INV;
        }
        adjustment := adjustment / 2;
      }
      assert morsePattern[|morsePattern|..] == [];
      return MorseTree[treeIndex];
    }

    /** `containsKey`: whether the key has a translation. */
    method ContainsKey(key: string) returns (r: bool)
      ensures r <==> Lookup(key).Some?
    {
      var translation := TranslateMorse(key);
      return translation != INV;
    }

    /** `get`: the key's translation, or null exactly when `containsKey` is false. */
    method Get(key: string) returns (r: Option<char>)
      ensures r == Lookup(key)
    {
      var translation := TranslateMorse(key);
      return if translation == INV then None else Some(translation);
    }

    /** The entries `getEntries` adds below the node `treeIndex` of the flattened tree `tree`, reached
        by `morse`, whose step is `adjustment`. (Every node it visits lies inside the tree, so the bounds
        test only makes the definition total.) */
    function Subtree(tree: seq<char>, morse: string, treeIndex: int, adjustment: nat): set<(string, char)>
      decreases adjustment
    {
      var here :=
        if 0 <= treeIndex < |tree| && tree[treeIndex] != INV then {(morse, tree[treeIndex])} else {};
      if adjustment != 0 then
        here
        + Subtree(tree, morse + [dit], treeIndex - adjustment, adjustment / 2)
        + Subtree(tree, morse + [dah], treeIndex + adjustment, adjustment / 2)
      else
        here
    }

    /** The set algebra of one `getEntries` call: the node's own entry, then the left subtree's, then
        the right subtree's. */
    lemma SubtreeAdded(tree: seq<char>, morse: string, treeIndex: int, adjustment: nat,
                       before: set<(string, char)>, here: set<(string, char)>, left: set<(string, char)>,
                       after: set<(string, char)>)
      requires 0 <= treeIndex < |tree|
      requires here == before + if tree[treeIndex] != INV then {(morse, tree[treeIndex])} else {}
      requires adjustment != 0 ==>
        left == here + Subtree(tree, morse + [dit], treeIndex - adjustment, adjustment / 2)
        && after == left + Subtree(tree, morse + [dah], treeIndex + adjustment, adjustment / 2)
      requires adjustment == 0 ==> after == here
      ensures after == before + Subtree(tree, morse, treeIndex, adjustment)
    {
    }

    /** The map's entry set. */
    function Entries(): set<(string, char)> {
      Subtree(MorseTree, [], Root, RootAdjustment)
    }

    /** `getEntries`: adds the entries of the subtree below `treeIndex` to `entries`. The tree array,
        a static field of the class, is passed down as `tree`. */
    method GetEntries(tree: seq<char>, entries: HashSet<(string, char)>, morse: string, treeIndex: int,
                      adjustment: int)
      requires |tree| == TreeSize && Within(treeIndex, adjustment)
      modifies entries
      ensures entries.elements == old(entries.elements) + Subtree(tree, morse, treeIndex, adjustment)
      decreases adjustment
    {
      var translation := tree[treeIndex];
      if translation != INV {
        entries.Add((morse, translation));
      }
      ghost var here := entries.elements;
      if adjustment != 0 {
        WithinChildren(treeIndex, adjustment);
        GetEntries(tree, entries, morse + [dit], treeIndex - adjustment, adjustment / 2);
        ghost var left := entries.elements;
        GetEntries(tree, entries, morse + [dah], treeIndex + adjustment, adjustment / 2);
        SubtreeAdded(tree, morse, treeIndex, adjustment, old(entries.elements), here, left, entries.elements);
      } else {
        SubtreeAdded(tree, morse, treeIndex, adjustment, old(entries.elements), here, here, here);
      }
    }

    /** `entrySet`: collects every entry of the tree. */
    method EntrySet() returns (r: set<(string, char)>)
      ensures r == Entries()
    {
      var entries := new HashSet<(string, char)>();
      RootWithin();
      GetEntries(MorseTree, entries, [], TreeSize / 2, (TreeSize + 1) / 4);
      return entries.elements;
    }

    /** Every pattern that walks from a node to a character is enumerated below that node. */
    lemma {:induction false} SubtreeComplete(tree: seq<char>, morse: string, pattern: string, treeIndex: int,
                                             adjustment: nat)
      requires |pattern| <= Levels(adjustment) && Walk(pattern, treeIndex, adjustment).Some?
      requires 0 <= Walk(pattern, treeIndex, adjustment).value < |tree|
      requires tree[Walk(pattern, treeIndex, adjustment).value] != INV
      ensures (morse + pattern, tree[Walk(pattern, treeIndex, adjustment).value])
        in Subtree(tree, morse, treeIndex, adjustment)
      decreases |pattern|
    {
      if pattern == [] {
        assert morse + pattern == morse;
      } else {
        var c := pattern[0];
        var next := if c == dit then treeIndex - adjustment else treeIndex + adjustment;
        assert adjustment != 0;
        assert Walk(pattern[1..], next, adjustment / 2) == Walk(pattern, treeIndex, adjustment);
        SubtreeComplete(tree, morse + [c], pattern[1..], next, adjustment / 2);
        assert morse + [c] + pattern[1..] == morse + pattern;
        assert Subtree(tree, morse + [c], next, adjustment / 2) <= Subtree(tree, morse, treeIndex, adjustment);
      }
    }

    /** Every entry enumerated below a node is a pattern, extending the node's own, that walks from
        the node to that entry's character. */
    lemma {:induction false} SubtreeSound(tree: seq<char>, morse: string, treeIndex: int, adjustment: nat,
                                          key: string, value: char)
      requires dit != dah && (key, value) in Subtree(tree, morse, treeIndex, adjustment)
      ensures |morse| <= |key| <= |morse| + Levels(adjustment) && key[..|morse|] == morse
      ensures Walk(key[|morse|..], treeIndex, adjustment).Some?
      ensures 0 <= Walk(key[|morse|..], treeIndex, adjustment).value < |tree|
      ensures tree[Walk(key[|morse|..], treeIndex, adjustment).value] == value != INV
      decreases adjustment
    {
      if 0 <= treeIndex < |tree| && tree[treeIndex] != INV && (key, value) == (morse, tree[treeIndex]) {
        assert key[|morse|..] == [];
      } else {
        var left := (key, value) in Subtree(tree, morse + [dit], treeIndex - adjustment, adjustment / 2);
        var next := if left then treeIndex - adjustment else treeIndex + adjustment;
        var symbol := if left then dit else dah;
        SubtreeSound(tree, morse + [symbol], next, adjustment / 2, key, value);
        assert key[|morse|..][1..] == key[|morse| + 1..];
        assert key[|morse|..][0] == symbol;
      }
    }
  }

  /** Every entry of the entry set is a key of the map with its value. */
  lemma EntriesSound(m: MorseMap, key: string, value: char)
    requires m.dit != m.dah && (key, value) in m.Entries()
    ensures m.Lookup(key) == Some(value)
  {
    RootWithin();
    m.SubtreeSound(MorseTree, [], Root, RootAdjustment, key, value);
    assert key[0..] == key;
    assert MorseTree[Root] == INV;
  }

  /** Every key of the map is in the entry set with its value. */
  lemma EntriesComplete(m: MorseMap, key: string)
    requires m.Lookup(key).Some?
    ensures (key, m.Lookup(key).value) in m.Entries()
  {
    RootWithin();
    m.SubtreeComplete(MorseTree, [], key, Root, RootAdjustment);
    assert [] + key == key;
  }

  /** The entry set holds exactly the map's key-value pairs: each key once, with its translation, and
      every pattern that has a translation. */
  lemma EntriesAgreeWithLookup(m: MorseMap, key: string, value: char)
    requires m.dit != m.dah
    ensures (key, value) in m.Entries() <==> m.Lookup(key) == Some(value)
  {
    if (key, value) in m.Entries() {
      EntriesSound(m, key, value);
    }
    if m.Lookup(key) == Some(value) {
      EntriesComplete(m, key);
    }
  }

  /** `symbols` written with `to`'s dit and dah in place of `from`'s. */
  function Recode(from: MorseMap, to: MorseMap, symbols: string): (r: string)
    ensures |r| == |symbols|
    ensures forall j :: 0 <= j < |symbols| && symbols[j] == from.dit ==> r[j] == to.dit
    ensures forall j :: 0 <= j < |symbols| && symbols[j] != from.dit ==> r[j] == to.dah
  {
    seq(|symbols|, j requires 0 <= j < |symbols| => if symbols[j] == from.dit then to.dit else to.dah)
  }

  /** The tree does not depend on the characters chosen for dits and dahs: a pattern written with
      other characters walks to the same node. */
  lemma {:induction false} WalkRecoded(from: MorseMap, to: MorseMap, pattern: string, treeIndex: int, adjustment: nat)
    requires to.dit != to.dah
    requires forall j :: 0 <= j < |pattern| ==> pattern[j] == from.dit || pattern[j] == from.dah
    ensures from.Walk(pattern, treeIndex, adjustment) == to.Walk(Recode(from, to, pattern), treeIndex, adjustment)
    decreases |pattern|
  {
    if pattern != [] {
      var next := if pattern[0] == from.dit then treeIndex - adjustment else treeIndex + adjustment;
      WalkRecoded(from, to, pattern[1..], next, adjustment / 2);
      assert Recode(from, to, pattern)[1..] == Recode(from, to, pattern[1..]);
    }
  }

  /** Translation depends only on which symbols are dits and which are dahs. */
  lemma TranslateRecoded(from: MorseMap, to: MorseMap, pattern: string)
    requires to.dit != to.dah
    requires forall j :: 0 <= j < |pattern| ==> pattern[j] == from.dit || pattern[j] == from.dah
    ensures from.Translate(pattern) == to.Translate(Recode(from, to, pattern))
  {
    WalkRecoded(from, to, pattern, Root, RootAdjustment);
  }

  /** Known translations with the default characters: the one-symbol letters. */
  lemma OneSymbolLetters()
    ensures Default().Translate(".") == 'E' && Default().Translate("-") == 'T'
  {
    assert Default().Walk(".", Root, RootAdjustment) == Some(31) && MorseTree[31] == 'E';
    assert Default().Walk("-", Root, RootAdjustment) == Some(95) && MorseTree[95] == 'T';
  }

  /** The two-symbol letters. */
  lemma TwoSymbolLetters()
    ensures Default().Translate("..") == 'I' && Default().Translate(".-") == 'A'
    ensures Default().Translate("-.") == 'N' && Default().Translate("--") == 'M'
  {
    assert Default().Walk("..", Root, RootAdjustment) == Some(15) && MorseTree[15] == 'I';
    assert Default().Walk(".-", Root, RootAdjustment) == Some(47) && MorseTree[47] == 'A';
    assert Default().Walk("-.", Root, RootAdjustment) == Some(79) && MorseTree[79] == 'N';
    assert Default().Walk("--", Root, RootAdjustment) == Some(111) && MorseTree[111] == 'M';
  }

  /** Some three-symbol letters. */
  lemma ThreeSymbolLetters()
    ensures Default().Translate("...") == 'S' && Default().Translate("---") == 'O'
    ensures Default().Translate("..-") == 'U'
  {
    assert Default().Walk("...", Root, RootAdjustment) == Some(7) && MorseTree[7] == 'S';
    assert Default().Walk("---", Root, RootAdjustment) == Some(119) && MorseTree[119] == 'O';
    assert Default().Walk("..-", Root, RootAdjustment) == Some(23) && MorseTree[23] == 'U';
  }

  /** Some four-symbol letters. */
  lemma FourSymbolLetters()
    ensures Default().Translate("....") == 'H' && Default().Translate(".-..") == 'L'
    ensures Default().Translate("-.-.") == 'C'
  {
    assert Default().Walk("....", Root, RootAdjustment) == Some(3) && MorseTree[3] == 'H';
    assert Default().Walk(".-..", Root, RootAdjustment) == Some(35) && MorseTree[35] == 'L';
    assert Default().Walk("-.-.", Root, RootAdjustment) == Some(83) && MorseTree[83] == 'C';
  }

  /** Patterns that are empty or hold other characters have no translation. */
  lemma ForeignPatterns()
    ensures Default().Translate("") == INV && Default().Translate("X") == INV
    ensures Default().Translate("HI") == INV && Default().Translate("L") == INV
    ensures Default().Translate("O") == INV
  {
  }

  /** A pattern longer than six symbols, and a six-symbol pattern that reaches an empty node, have no
      translation. */
  lemma UnknownPatterns()
    ensures Default().Translate("...---...") == INV
    ensures Default().Translate("..-.-.") == INV
  {
    assert |"...---..."| > MaxMorseLength;
    assert Default().Walk("..-.-.", Root, RootAdjustment) == Some(20) && MorseTree[20] == INV;
  }

  /** A four-symbol pattern that reaches an empty node has no translation. */
  lemma EmptyNodePattern()
    ensures Default().Translate(".-.-") == INV
  {
    assert Default().Walk(".-.-", Root, RootAdjustment) == Some(43) && MorseTree[43] == INV;
  }

  /** The constructor: dits and dahs must be told apart. */
  function Create(dit: char, dah: char): (r: Result<MorseMap>)
    ensures r.Err? <==> dit == dah
    ensures r.Err? ==> r.error == IllegalArgument
    ensures r.Ok? ==> r.value.dit == dit && r.value.dah == dah
  {
    if dit == dah then Err(IllegalArgument) else Ok(MorseMap(dit, dah))
  }

  /** The default constructor: `.` for dits and `-` for dahs. */
  function Default(): (r: MorseMap)
    ensures Create('.', '-') == Ok(r)
  {
    MorseMap('.', '-')
  }
}
