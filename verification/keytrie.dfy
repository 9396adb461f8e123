/**
 * The prefix tree of special key names and the tokenizer that splits macro
 * text such as i<left>asd<esc> into single characters and special names
 * (vimgolf/keys.py, Trie and tokenize_keycode_reprs).
 */
module KeyTrie {
  import opened Common
  import opened Keys

  /** key applied to every character of s. */
  function MapChars(s: string, key: char -> char): (r: string)
    ensures |r| == |s|
    ensures forall i :: 0 <= i < |s| ==> r[i] == key(s[i])
  {
    if s == [] then [] else [key(s[0])] + MapChars(s[1..], key)
  }

  /** The path that item[start..start + m] spells once each character goes through key. */
  function Keyed(item: string, start: nat, m: nat, key: char -> char): (p: string)
    requires start + m <= |item|
    ensures |p| == m
  {
    MapChars(item[start..start + m], key)
  }

  lemma KeyedPrefix(item: string, start: nat, key: char -> char, n: nat, m: nat)
    requires n <= m && start + m <= |item|
    ensures Keyed(item, start, m, key)[..n] == Keyed(item, start, n, key)
  {
  }

  /** A non-empty path without its last character. */
  function Parent(p: string): (q: string)
    requires p != []
    ensures |q| == |p| - 1 && q == p[..|p| - 1]
  {
    p[..|p| - 1]
  }

  ghost predicate PrefixClosed(nodes: map<string, bool>) {
    forall p {:trigger Parent(p)} | p in nodes && p != [] :: Parent(p) in nodes
  }

  lemma {:induction false} PrefixesPresent(nodes: map<string, bool>, p: string, k: nat)
    requires PrefixClosed(nodes) && p in nodes && k <= |p|
    ensures p[..k] in nodes
    decreases |p| - k
  {
    if k < |p| {
      PrefixesPresent(nodes, p, k + 1);
      var q := p[..k + 1];
      assert q in nodes && q != [];
      assert Parent(q) == p[..k];
    } else {
      assert p[..k] == p;
    }
  }

  /**
   * The trie. Each node is stored under the path of characters that leads to
   * it from the root, with its member flag; the root is the empty path.
   */
  class Trie {
    var nodes: map<string, bool>

    ghost predicate Valid()
      reads this
    {
      && "" in nodes
      && !nodes[""]
      && PrefixClosed(nodes)
    }

    /** The items added so far. */
    function Members(): set<string>
      reads this
    {
      set p | p in nodes && nodes[p]
    }

    constructor ()
      ensures Valid() && Members() == {}
    {
      nodes := map["" := false];
    }

    /** Walks down item, creating missing children, and marks the last node a member. */
    method Add(item: string)
      requires Valid() && item != ""
      modifies this
      ensures Valid()
      ensures Members() == old(Members()) + {item}
    {
      var i := 0;
      while i < |item|
        invariant 0 <= i <= |item|
        invariant item[..i] in nodes
        invariant Valid()
        invariant forall p :: p in old(nodes) ==> p in nodes && nodes[p] == old(nodes)[p]
        invariant forall p :: p in nodes && p !in old(nodes) ==> !nodes[p]
      {
        var next := item[..i + 1];
        assert next[..|next| - 1] == item[..i];
        if next !in nodes {
          nodes := nodes[next := false];
        }
        i := i + 1;
      }
      assert item[..i] == item;
      nodes := nodes[item := true];
    }

    /**
     * The length of the shortest member that, after mapping each character
     * through key, is a prefix of item[start..]; None when there is none.
     */
    method Match(item: string, start: nat, key: char -> char) returns (r: Option<nat>)
      requires Valid()
      ensures r.Some? ==> 1 <= r.value && start + r.value <= |item|
      ensures r.Some? ==> Keyed(item, start, r.value, key) in Members()
      ensures r.Some? ==> forall m :: 1 <= m < r.value ==> Keyed(item, start, m, key) !in Members()
      ensures r.None? ==> forall m :: 1 <= m && start + m <= |item| ==> Keyed(item, start, m, key) !in Members()
    {
      if start >= |item| {
        // range(start, len(item)) is empty
        return None;
      }
      var path: string := "";
      var idx := start;
      while idx < |item|
        invariant start <= idx <= |item|
        invariant path == Keyed(item, start, idx - start, key)
        invariant path in nodes
        invariant forall m :: 1 <= m <= idx - start ==> Keyed(item, start, m, key) !in Members()
      {
        var c := key(item[idx]);
        var next := path + [c];
        assert next == Keyed(item, start, idx - start + 1, key);
        if next !in nodes {
          NoMemberBeyond(item, start, key, idx - start + 1);
          return None;
        }
        if nodes[next] {
          return Some(idx - start + 1);
        }
        path := next;
        idx := idx + 1;
      }
      return None;
    }

    /** Once a path has left the trie, no longer path is a member. */
    lemma NoMemberBeyond(item: string, start: nat, key: char -> char, n: nat)
      requires Valid() && start + n <= |item|
      requires Keyed(item, start, n, key) !in nodes
      ensures forall m :: n <= m && start + m <= |item| ==> Keyed(item, start, m, key) !in Members()
    {
      forall m | n <= m && start + m <= |item|
        ensures Keyed(item, start, m, key) !in Members()
      {
        var p := Keyed(item, start, m, key);
        KeyedPrefix(item, start, key, n, m);
        if p in nodes {
          PrefixesPresent(nodes, p, n);
        }
      }
    }
  }

  // ------------------------------------------------------------------
  // tokenize_keycode_reprs
  // ------------------------------------------------------------------

  /** The filter applied to the table values: item.startswith('<') and item.endswith('>'). */
  predicate IsAngleName(v: string) {
    StartsWith(v, "<") && EndsWith(v, ">")
  }

  /** The names listed under :help keycodes that the table does not produce. */
  const EXTRA_SPECIALS: set<string> := {
    "<nul>", "<return>", "<enter>", "<esc>", "<space>", "<lt>",
    "<bslash>", "<bar>", "<csi>", "<xcsi>", "<eol>"
  }

  /** The lower-cased angle names among the given table values. */
  function AngleNames(values: set<string>): set<string>
  {
    set v | v in values && IsAngleName(v) :: Lower(v)
  }

  /** The lower-cased special names the trie is filled with. */
  function Specials(values: set<string>): set<string>
  {
    AngleNames(values) + EXTRA_SPECIALS
  }

  /** An angle name has at least two characters, '<' first and '>' last; lower-casing keeps that. */
  lemma AngleNameShape(w: string)
    requires IsAngleName(w)
    ensures |Lower(w)| >= 2 && Lower(w)[0] == '<' && Lower(w)[|w| - 1] == '>'
  {
  }

  /** Every special name starts with '<' and ends with '>', and has at least two characters. */
  lemma SpecialShape(values: set<string>, v: string)
    requires v in Specials(values)
    ensures |v| >= 2 && v[0] == '<' && v[|v| - 1] == '>'
  {
    if v !in EXTRA_SPECIALS {
      var w :| w in values && IsAngleName(w) && v == Lower(w);
      AngleNameShape(w);
    }
  }

  /** The lower-cased text of length m at position i of s. */
  function LoweredAt(s: string, i: nat, m: nat): (t: string)
    requires i + m <= |s|
    ensures |t| == m
  {
    Lower(s[i..i + m])
  }

  /**
   * The length of the shortest special that, lower-cased, starts at
   * position i of s, trying lengths n and up.
   */
  function ShortestSpecialAt(s: string, specials: set<string>, i: nat, n: nat): (r: Option<nat>)
    requires 1 <= n && i <= |s|
    ensures r.Some? ==> n <= r.value && i + r.value <= |s|
    decreases |s| - i - n
  {
    if i + n > |s| then None
    else if LoweredAt(s, i, n) in specials then Some(n)
    else ShortestSpecialAt(s, specials, i, n + 1)
  }

  /** The answer, when there is one, is the length of a special. */
  lemma {:induction false} ShortestSpecialIsSpecial(s: string, specials: set<string>, i: nat, n: nat)
    requires 1 <= n && i <= |s|
    ensures var r := ShortestSpecialAt(s, specials, i, n);
      r.Some? ==> LoweredAt(s, i, r.value) in specials
    decreases |s| - i - n
  {
    if i + n <= |s| && LoweredAt(s, i, n) !in specials {
      ShortestSpecialIsSpecial(s, specials, i, n + 1);
    }
  }

  /** No length from n up to the answer (or to the end of s when there is none) is special. */
  lemma {:induction false} ShortestSpecialIsLeast(s: string, specials: set<string>, i: nat, n: nat)
    requires 1 <= n && i <= |s|
    ensures var r := ShortestSpecialAt(s, specials, i, n);
      r.Some? ==> forall m :: n <= m < r.value ==> LoweredAt(s, i, m) !in specials
    ensures ShortestSpecialAt(s, specials, i, n).None? ==>
      forall m :: n <= m && i + m <= |s| ==> LoweredAt(s, i, m) !in specials
    decreases |s| - i - n
  {
    if i + n <= |s| && LoweredAt(s, i, n) !in specials {
      ShortestSpecialIsLeast(s, specials, i, n + 1);
    }
  }

  /** The length of the token at position i: the shortest special at a '<', or one character. */
  function TokenLength(s: string, specials: set<string>, i: nat): (n: nat)
    requires i < |s|
    ensures 1 <= n && i + n <= |s|
  {
    if s[i] == '<' && ShortestSpecialAt(s, specials, i, 1).Some? then ShortestSpecialAt(s, specials, i, 1).value
    else 1
  }

  /** The tokens of s from position i on. */
  function TokensFrom(s: string, specials: set<string>, i: nat): seq<string>
    requires i <= |s|
    decreases |s| - i
  {
    if i == |s| then []
    else
      var n := TokenLength(s, specials, i);
      [s[i..i + n]] + TokensFrom(s, specials, i + n)
  }

  /** At a '<' that starts a special, the shortest such special is the next token. */
  lemma SpecialStep(s: string, specials: set<string>, i: nat, m: nat)
    requires i < |s| && s[i] == '<' && ShortestSpecialAt(s, specials, i, 1) == Some(m)
    ensures TokensFrom(s, specials, i) == [s[i..i + m]] + TokensFrom(s, specials, i + m)
  {
    assert TokenLength(s, specials, i) == m;
  }

  /** Anywhere else the next token is the single character. */
  lemma CharStep(s: string, specials: set<string>, i: nat)
    requires i < |s| && (s[i] != '<' || ShortestSpecialAt(s, specials, i, 1).None?)
    ensures TokensFrom(s, specials, i) == [[s[i]]] + TokensFrom(s, specials, i + 1)
  {
    assert TokenLength(s, specials, i) == 1;
    assert s[i..i + 1] == [s[i]];
  }

  /** A character other than '<' is always a token of its own. */
  lemma PlainCharStep(s: string, specials: set<string>, i: nat)
    requires i < |s| && s[i] != '<'
    ensures TokensFrom(s, specials, i) == [[s[i]]] + TokensFrom(s, specials, i + 1)
  {
    CharStep(s, specials, i);
  }

  /** Specification of tokenize_keycode_reprs over a given set of specials. */
  function Tokenize(s: string, specials: set<string>): seq<string>
  {
    TokensFrom(s, specials, 0)
  }

  function Concat(ts: seq<string>): string
  {
    if ts == [] then [] else ts[0] + Concat(ts[1..])
  }

  /** Concatenating the tokens from i gives back s[i..]. */
  lemma {:induction false} TokensFromConcat(s: string, specials: set<string>, i: nat)
    requires i <= |s|
    ensures Concat(TokensFrom(s, specials, i)) == s[i..]
    decreases |s| - i
  {
    if i < |s| {
      var n := TokenLength(s, specials, i);
      TokensFromConcat(s, specials, i + n);
      assert s[i..i + n] + s[i + n..] == s[i..];
    } else {
      assert s[i..] == [];
    }
  }

  /** Concatenating the tokens gives back the input. */
  lemma TokenizeConcat(s: string, specials: set<string>)
    ensures Concat(Tokenize(s, specials)) == s
  {
    TokensFromConcat(s, specials, 0);
    assert s[0..] == s;
  }

  /** A token longer than one character starts with '<' and is special once lower-cased. */
  lemma TokenLengthShape(s: string, specials: set<string>, i: nat)
    requires i < |s|
    ensures var n := TokenLength(s, specials, i);
      n == 1 || (s[i] == '<' && Lower(s[i..i + n]) in specials)
  {
    ShortestSpecialIsSpecial(s, specials, i, 1);
  }

  /** Each token is one character, or a name starting with '<' whose lower-case form is special. */
  lemma {:induction false} TokensFromShape(s: string, specials: set<string>, i: nat, k: nat)
    requires i <= |s| && k < |TokensFrom(s, specials, i)|
    ensures var t := TokensFrom(s, specials, i)[k];
      |t| >= 1 && (|t| == 1 || (t[0] == '<' && Lower(t) in specials))
    decreases |s| - i
  {
    var n := TokenLength(s, specials, i);
    if k > 0 {
      TokensFromShape(s, specials, i + n, k - 1);
    } else {
      TokenLengthShape(s, specials, i);
    }
  }

  lemma TokenShape(s: string, specials: set<string>, k: nat)
    requires k < |Tokenize(s, specials)|
    ensures var t := Tokenize(s, specials)[k];
      |t| >= 1 && (|t| == 1 || (t[0] == '<' && Lower(t) in specials))
  {
    TokensFromShape(s, specials, 0, k);
  }

  /**
   * tokenize_keycode_reprs: collects the specials from the table, fills a
   * trie with them, and then scans the text left to right.
   */
  method TokenizeKeycodeReprs(table: map<Keycode, string>, s: string) returns (result: seq<string>)
    ensures result == Tokenize(s, Specials(table.Values))
  {
    var special := CollectSpecials(table.Values);
    if "" in special {
      SpecialShape(table.Values, "");
      assert false;
    }
    var trie := BuildTrie(special);
    result := ScanTokens(trie, special, s);
  }

  /** The scanning loop of tokenize_keycode_reprs, over a trie holding the specials. */
  method ScanTokens(trie: Trie, special: set<string>, s: string) returns (result: seq<string>)
    requires trie.Valid() && trie.Members() == special
    ensures result == Tokenize(s, special)
  {
    result := [];
    var idx := 0;
    while idx < |s|
      invariant 0 <= idx <= |s|
      invariant result + TokensFrom(s, special, idx) == Tokenize(s, special)
    {
      var tok, next := NextToken(trie, special, s, idx);
      Advance(s, special, idx, next, tok, result);
      result := result + [tok];
      idx := next;
    }
    assert result + [] == result;
  }

  /** One step of the scan: the special the trie finds at idx, or the single character. */
  method NextToken(trie: Trie, special: set<string>, s: string, idx: nat) returns (tok: string, next: nat)
    requires trie.Valid() && trie.Members() == special && idx < |s|
    ensures idx < next <= |s| && tok == s[idx..next]
    ensures TokensFrom(s, special, idx) == [tok] + TokensFrom(s, special, next)
  {
    var m: Option<nat> := None;
    if s[idx] == '<' {
      m := MatchLowered(trie, special, s, idx);
    }
    var n := LengthOfMatch(s, special, idx, m);
    tok, next := s[idx..idx + n], idx + n;
  }

  /** What the trie reports at idx (nothing when s[idx] is not '<') gives the length of the token there. */
  function LengthOfMatch(s: string, specials: set<string>, idx: nat, m: Option<nat>): (n: nat)
    requires idx < |s|
    requires m == if s[idx] == '<' then ShortestSpecialAt(s, specials, idx, 1) else None
    ensures n == TokenLength(s, specials, idx) && 1 <= n && idx + n <= |s|
    ensures TokensFrom(s, specials, idx) == [s[idx..idx + n]] + TokensFrom(s, specials, idx + n)
  {
    if m.Some? then m.value else 1
  }

  /** Emitting the next token keeps the scanned tokens plus the rest equal to the whole. */
  lemma Advance(s: string, specials: set<string>, idx: nat, next: nat, tok: string, result: seq<string>)
    requires idx <= next <= |s|
    requires result + TokensFrom(s, specials, idx) == Tokenize(s, specials)
    requires TokensFrom(s, specials, idx) == [tok] + TokensFrom(s, specials, next)
    ensures (result + [tok]) + TokensFrom(s, specials, next) == Tokenize(s, specials)
  {
    assert result + ([tok] + TokensFrom(s, specials, next)) == (result + [tok]) + TokensFrom(s, specials, next);
  }

  /** trie.match(s, start=idx, key=lambda x: x.lower()): the shortest special at idx. */
  method MatchLowered(trie: Trie, special: set<string>, s: string, idx: nat) returns (m: Option<nat>)
    requires trie.Valid() && trie.Members() == special && idx < |s|
    ensures m == ShortestSpecialAt(s, special, idx, 1)
  {
    m := trie.Match(s, idx, LowerChar);
    MatchIsShortest(s, idx, trie.Members(), m);
  }

  /** The first loop of tokenize_keycode_reprs and the update with the extra names. */
  method CollectSpecials(values: set<string>) returns (special: set<string>)
    ensures special == Specials(values)
  {
    special := {};
    var pending := values;
    while pending != {}
      invariant pending <= values
      invariant special == AngleNames(values - pending)
      decreases |pending|
    {
      var item :| item in pending;
      AngleNamesAdd(values, pending, item);
      if StartsWith(item, "<") && EndsWith(item, ">") {
        special := special + {Lower(item)};
      }
      pending := pending - {item};
    }
    assert values - pending == values;
    special := special + EXTRA_SPECIALS;
  }

  /** One more value adds its lower-cased form to the angle names exactly when it is one. */
  lemma AngleNamesAdd(values: set<string>, pending: set<string>, item: string)
    requires item in pending && pending <= values
    ensures AngleNames(values - (pending - {item}))
         == AngleNames(values - pending) + (if IsAngleName(item) then {Lower(item)} else {})
  {
    assert values - (pending - {item}) == (values - pending) + {item};
  }

  /** The second loop: a fresh trie holding exactly the special names. */
  method BuildTrie(special: set<string>) returns (trie: Trie)
    requires "" !in special
    ensures fresh(trie) && trie.Valid() && trie.Members() == special
  {
    trie := new Trie();
    var toAdd := special;
    while toAdd != {}
      invariant toAdd <= special
      invariant trie.Valid() && trie.Members() == special - toAdd
      decreases |toAdd|
    {
      var item :| item in toAdd;
      trie.Add(item);
      toAdd := toAdd - {item};
    }
  }

  /** Lower-casing is MapChars with LowerChar. */
  lemma LowerIsMapChars(t: string)
    ensures Lower(t) == MapChars(t, LowerChar)
  {
  }

  /** The trie's answer at idx is the shortest special of the text from idx. */
  lemma MatchIsShortest(s: string, idx: nat, specials: set<string>, m: Option<nat>)
    requires idx < |s|
    requires m.Some? ==> 1 <= m.value && idx + m.value <= |s|
    requires m.Some? ==> Keyed(s, idx, m.value, LowerChar) in specials
    requires m.Some? ==> forall j :: 1 <= j < m.value ==> Keyed(s, idx, j, LowerChar) !in specials
    requires m.None? ==> forall j :: 1 <= j && idx + j <= |s| ==> Keyed(s, idx, j, LowerChar) !in specials
    ensures ShortestSpecialAt(s, specials, idx, 1) == m
  {
    forall j | 1 <= j && idx + j <= |s|
      ensures LoweredAt(s, idx, j) == Keyed(s, idx, j, LowerChar)
    {
      LowerIsMapChars(s[idx..idx + j]);
    }
    ShortestSpecialIsLeast(s, specials, idx, 1);
    ShortestSpecialIsSpecial(s, specials, idx, 1);
  }

  /** Every name in the set ends with '>'. */
  predicate AllClosed(specials: set<string>) {
    forall t :: t in specials ==> |t| >= 1 && t[|t| - 1] == '>'
  }

  lemma SpecialsAllClosed(values: set<string>)
    ensures AllClosed(Specials(values))
  {
    forall t | t in Specials(values) ensures |t| >= 1 && t[|t| - 1] == '>' {
      SpecialShape(values, t);
    }
  }

  /** Scanning forward from length n, the first length ending in '>' whose text is special wins. */
  lemma {:induction false} FirstClosingBracket(specials: set<string>, s: string, i: nat, n: nat, k: nat)
    requires AllClosed(specials)
    requires 1 <= n <= k && i + k <= |s|
    requires forall j :: i + n - 1 <= j < i + k - 1 ==> s[j] != '>'
    requires LoweredAt(s, i, k) in specials
    ensures ShortestSpecialAt(s, specials, i, n) == Some(k)
    decreases k - n
  {
    if n < k {
      UnclosedNotSpecial(specials, s, i, n);
      FirstClosingBracket(specials, s, i, n + 1, k);
    }
  }

  /** Text that does not end in '>' is not special. */
  lemma UnclosedNotSpecial(specials: set<string>, s: string, i: nat, n: nat)
    requires AllClosed(specials)
    requires 1 <= n && i + n <= |s| && s[i + n - 1] != '>'
    ensures LoweredAt(s, i, n) !in specials
  {
    assert LoweredAt(s, i, n)[n - 1] == LowerChar(s[i + n - 1]);
  }

  /** A table value in angle brackets contributes its lower-cased form. */
  lemma AngleNameIsSpecial(values: set<string>, v: string)
    requires v in values && IsAngleName(v)
    ensures Lower(v) in Specials(values)
  {
  }

  lemma LeftInTable()
    ensures "<Left>" in ReprTable().Values
  {
    LeftName();
    NamedEntryInTable(Keycode(0x6b, 0x6c));
  }

  /** A table holding <Left> makes <left> special; <esc> is one of the extra names. */
  lemma LeftAndEscAreSpecial(values: set<string>)
    requires "<Left>" in values
    ensures "<left>" in Specials(values)
    ensures "<esc>" in Specials(values)
  {
    AngleNameIsSpecial(values, "<Left>");
    LowerLeft();
  }

  lemma LowerLeft()
    ensures Lower("<Left>") == "<left>"
  {
    var r := Lower("<Left>");
    assert r[0] == '<' && r[1] == 'l' && r[2] == 'e' && r[3] == 'f' && r[4] == 't' && r[5] == '>';
  }

  /** The pieces of the text i<left>asd<esc> that the example below relies on. */
  predicate ExampleText(s: string) {
    && |s| == 15 && s[0] == 'i' && s[1..7] == "<left>"
    && s[7] == 'a' && s[8] == 's' && s[9] == 'd' && s[10..15] == "<esc>"
  }

  lemma ExampleTextHolds(s: string)
    requires s == "i<left>asd<esc>"
    ensures ExampleText(s)
  {
  }

  /** The trailing <esc> is one token. */
  lemma ExampleEsc(sp: set<string>, s: string)
    requires AllClosed(sp) && "<esc>" in sp && ExampleText(s)
    ensures TokensFrom(s, sp, 10) == ["<esc>"]
  {
    ExampleEscSpecial(sp, s);
    SpecialStep(s, sp, 10, 5);
  }

  /** At position 10 the shortest special is the five characters of <esc>. */
  lemma ExampleEscSpecial(sp: set<string>, s: string)
    requires AllClosed(sp) && "<esc>" in sp && ExampleText(s)
    ensures ShortestSpecialAt(s, sp, 10, 1) == Some(5)
  {
    var w := s[10..15];
    assert s[10] == w[0] && s[11] == w[1] && s[12] == w[2] && s[13] == w[3] && s[14] == w[4];
    var r := LoweredAt(s, 10, 5);
    assert r[0] == '<' && r[1] == 'e' && r[2] == 's' && r[3] == 'c' && r[4] == '>';
    assert r == "<esc>";
    FirstClosingBracket(sp, s, 10, 1, 5);
  }

  /** The letters a, s, d before it are tokens of their own. */
  lemma ExampleAsd(sp: set<string>, s: string)
    requires AllClosed(sp) && "<esc>" in sp && ExampleText(s)
    ensures TokensFrom(s, sp, 7) == ["a", "s", "d", "<esc>"]
  {
    ExampleEsc(sp, s);
    PlainCharStep(s, sp, 9);
    PlainCharStep(s, sp, 8);
    PlainCharStep(s, sp, 7);
  }

  /** <left> is a token. */
  lemma ExampleLeft(sp: set<string>, s: string)
    requires AllClosed(sp) && "<left>" in sp && "<esc>" in sp && ExampleText(s)
    ensures TokensFrom(s, sp, 1) == ["<left>", "a", "s", "d", "<esc>"]
  {
    ExampleAsd(sp, s);
    ExampleLeftSpecial(sp, s);
    SpecialStep(s, sp, 1, 6);
  }

  /** At position 1 the shortest special is the six characters of <left>. */
  lemma ExampleLeftSpecial(sp: set<string>, s: string)
    requires AllClosed(sp) && "<left>" in sp && ExampleText(s)
    ensures ShortestSpecialAt(s, sp, 1, 1) == Some(6)
  {
    var w := s[1..7];
    assert s[1] == w[0] && s[2] == w[1] && s[3] == w[2] && s[4] == w[3] && s[5] == w[4] && s[6] == w[5];
    var r := LoweredAt(s, 1, 6);
    assert r[0] == '<' && r[1] == 'l' && r[2] == 'e' && r[3] == 'f' && r[4] == 't' && r[5] == '>';
    assert r == "<left>";
    FirstClosingBracket(sp, s, 1, 1, 6);
  }

  /** i<left>asd<esc> splits into i, <left>, a, s, d, <esc> under any closed set holding <left> and <esc>. */
  lemma TokenizeExampleWith(sp: set<string>, s: string)
    requires AllClosed(sp) && "<left>" in sp && "<esc>" in sp && ExampleText(s)
    ensures Tokenize(s, sp) == ["i", "<left>", "a", "s", "d", "<esc>"]
  {
    ExampleLeft(sp, s);
    PlainCharStep(s, sp, 0);
  }

  /** The same split with the specials drawn from the keycode table. */
  lemma TokenizeExample()
    ensures Tokenize("i<left>asd<esc>", Specials(ReprTable().Values)) == ["i", "<left>", "a", "s", "d", "<esc>"]
  {
    LeftInTable();
    ExampleTextHolds("i<left>asd<esc>");
    TokenizeExampleOver(ReprTable().Values, "i<left>asd<esc>");
  }

  /** The split holds for the specials of any table that has <Left> among its values. */
  lemma TokenizeExampleOver(values: set<string>, s: string)
    requires "<Left>" in values && ExampleText(s)
    ensures Tokenize(s, Specials(values)) == ["i", "<left>", "a", "s", "d", "<esc>"]
  {
    LeftAndEscAreSpecial(values);
    SpecialsAllClosed(values);
    TokenizeExampleWith(Specials(values), s);
  }
}
