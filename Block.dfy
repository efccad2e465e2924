/**
 * Minecraft block states: a namespaced name with an ordered list of `key=value`
 * properties, written `name[k=v,k=v,]`, and read back with three regular
 * expressions. The regular expressions are modelled as explicit scanners; the
 * word-character class `\w` is taken to be ASCII letters, digits and `_`.
 */
module Blocks {
  import opened Wrappers

  type Property = (string, string)

  /**
   * An immutable block. `additionalProperties` is `None` where the source holds a
   * null array.
   */
  datatype Block = Block(name: string, additionalProperties: Option<seq<Property>>)

  predicate IsWordChar(c: char) {
    'a' <= c <= 'z' || 'A' <= c <= 'Z' || '0' <= c <= '9' || c == '_'
  }

  /** A non-empty run of word characters: what `[\w_]+` matches. */
  predicate IsWord(s: string) {
    |s| > 0 && forall i :: 0 <= i < |s| ==> IsWordChar(s[i])
  }

  // ---------------------------------------------------------------------------
  // Serialisation
  // ---------------------------------------------------------------------------

  /** One property as the serialiser writes it, comma included. */
  function PropertyText(p: Property): string {
    p.0 + "=" + p.1 + ","
  }

  /** The properties in order, each followed by a comma (the last one too). */
  function PropertiesText(ps: seq<Property>): string
    decreases |ps|
  {
    if |ps| == 0 then "" else PropertyText(ps[0]) + PropertiesText(ps[1..])
  }

  /**
   * The text of a block: the bare name when the properties are null or empty, and
   * otherwise the name followed by a bracketed section.
   */
  function McString(b: Block): (r: string)
    ensures |r| >= |b.name| && r[..|b.name|] == b.name
    ensures |r| == |b.name| <==> |PropertiesOrEmpty(b)| == 0
    ensures |r| > |b.name| ==> r[|b.name|] == '[' && r[|r| - 1] == ']'
  {
    match b.additionalProperties
    case Some(ps) => if |ps| != 0 then b.name + "[" + PropertiesText(ps) + "]" else b.name
    case None => b.name
  }

  lemma {:induction false} PropertiesTextAppend(a: seq<Property>, b: seq<Property>)
    ensures PropertiesText(a + b) == PropertiesText(a) + PropertiesText(b)
    decreases |a|
  {
    if |a| > 0 {
      assert (a + b)[1..] == a[1..] + b;
      PropertiesTextAppend(a[1..], b);
    } else {
      assert a + b == b;
    }
  }

  /** `ToMcString`: appends to a string while walking the property array. */
  method ToMcString(b: Block) returns (s: string)
    ensures s == McString(b)
  {
    s := b.name;
    if b.additionalProperties.Some? && |b.additionalProperties.value| != 0 {
      var ps := b.additionalProperties.value;
      s := s + "[";
      for i := 0 to |ps|
        invariant s == b.name + "[" + PropertiesText(ps[..i])
      {
        assert ps[..i + 1] == ps[..i] + [ps[i]];
        PropertiesTextAppend(ps[..i], [ps[i]]);
        s := s + ps[i].0 + "=" + ps[i].1 + ",";
      }
      assert ps[..|ps|] == ps;
      s := s + "]";
      assert s == b.name + "[" + PropertiesText(ps) + "]";
    }
  }

  /** With no properties (null or empty array) the text is exactly the name: no brackets. */
  lemma McStringWithoutProperties(b: Block)
    requires b.additionalProperties.None? || b.additionalProperties == Some([])
    ensures McString(b) == b.name
  {
  }

  /** The property section splits around any one pair: the pairs before it, `k=v,`, the pairs after it. */
  lemma {:induction false} PropertiesTextAround(ps: seq<Property>, i: nat)
    requires i < |ps|
    ensures PropertiesText(ps) == PropertiesText(ps[..i]) + PropertyText(ps[i]) + PropertiesText(ps[i + 1..])
  {
    assert ps == ps[..i] + [ps[i]] + ps[i + 1..];
    PropertiesTextAppend(ps[..i] + [ps[i]], ps[i + 1..]);
    PropertiesTextAppend(ps[..i], [ps[i]]);
    assert [ps[i]][1..] == [];
  }

  // ---------------------------------------------------------------------------
  // Parsing
  // ---------------------------------------------------------------------------

  /** `block.Replace(" ", "")`: drops every space character, keeps everything else in order. */
  function StripSpaces(s: string): (r: string)
    ensures ' ' !in r
    ensures multiset(r) == multiset(s)[' ' := 0]
    ensures ' ' !in s ==> r == s
    decreases |s|
  {
    if |s| == 0 then ""
    else
      assert s == [s[0]] + s[1..];
      (if s[0] == ' ' then "" else [s[0]]) + StripSpaces(s[1..])
  }

  /** Stripping works piecewise, so the order of the surviving characters is kept. */
  lemma {:induction false} StripSpacesAppend(a: string, b: string)
    ensures StripSpaces(a + b) == StripSpaces(a) + StripSpaces(b)
    decreases |a|
  {
    if |a| > 0 {
      var head := if a[0] == ' ' then "" else [a[0]];
      assert StripSpaces(a + b) == head + StripSpaces(a[1..] + b) by {
        assert (a + b)[0] == a[0] && (a + b)[1..] == a[1..] + b;
      }
      assert StripSpaces(a) == head + StripSpaces(a[1..]);
      StripSpacesAppend(a[1..], b);
    } else {
      assert a + b == b;
    }
  }

  predicate WordAt(s: string, i: int) {
    0 <= i < |s| && IsWordChar(s[i])
  }

  /** `\b`: a word character on exactly one side of position `i`. */
  predicate WordBoundary(s: string, i: nat) {
    WordAt(s, i - 1) != WordAt(s, i)
  }

  /** The greedy length of `[\w_]+` at position `i` (0 when it does not match). */
  function WordRun(s: string, i: nat): (n: nat)
    requires i <= |s|
    ensures i + n <= |s|
    ensures forall k :: i <= k < i + n ==> IsWordChar(s[k])
    ensures i + n == |s| || !IsWordChar(s[i + n])
    decreases |s| - i
  {
    if i < |s| && IsWordChar(s[i]) then 1 + WordRun(s, i + 1) else 0
  }

  /** A run of word characters that ends at a non-word character (or the end) is the greedy run. */
  lemma {:induction false} WordRunIs(s: string, i: nat, n: nat)
    requires i + n <= |s|
    requires forall k :: i <= k < i + n ==> IsWordChar(s[k])
    requires i + n == |s| || !IsWordChar(s[i + n])
    ensures WordRun(s, i) == n
    decreases n
  {
    if n > 0 {
      WordRunIs(s, i + 1, n - 1);
    }
  }

  const Namespace: string := "minecraft:"

  /** `\bminecraft:[\w_]+` matches starting at position `i`. */
  predicate NameMatchesAt(s: string, i: nat) {
    i + |Namespace| < |s| && WordBoundary(s, i) &&
    s[i..i + |Namespace|] == Namespace && IsWordChar(s[i + |Namespace|])
  }

  /** The leftmost start of a name match at or after `i`. */
  function FirstNameMatch(s: string, i: nat): (r: Option<nat>)
    requires i <= |s|
    ensures r.Some? ==> i <= r.value && NameMatchesAt(s, r.value)
    ensures r.Some? ==> forall j: nat :: i <= j < r.value ==> !NameMatchesAt(s, j)
    ensures r.None? ==> forall j: nat :: i <= j ==> !NameMatchesAt(s, j)
    decreases |s| - i
  {
    if i == |s| then None
    else if NameMatchesAt(s, i) then Some(i)
    else FirstNameMatch(s, i + 1)
  }

  /**
   * `nameRegex.Match(block).Value`: the leftmost match, extended over the whole word
   * that follows the namespace, or the empty string when nothing matches.
   */
  function MatchName(s: string): (name: string)
    ensures name == "" <==> forall j: nat :: !NameMatchesAt(s, j)
    ensures name != "" ==> |name| > |Namespace| && name[..|Namespace|] == Namespace && IsWord(name[|Namespace|..])
    ensures name != "" ==> exists i: nat :: LeftmostNameText(s, i, name)
  {
    match FirstNameMatch(s, 0)
    case None => ""
    case Some(i) =>
      var name := NameAt(s, i);
      assert LeftmostNameText(s, i, name);
      name
  }

  /**
   * `name` is the text of the leftmost name match, which starts at `i`, taken up to the
   * end of the word after the namespace.
   */
  predicate LeftmostNameText(s: string, i: nat, name: string) {
    && NameMatchesAt(s, i)
    && (forall j: nat :: j < i ==> !NameMatchesAt(s, j))
    && i + |name| <= |s| && s[i..i + |name|] == name
    && (i + |name| == |s| || !IsWordChar(s[i + |name|]))
  }

  /** The text of a name match at `i`: `minecraft:` and the whole word after it. */
  function NameAt(s: string, i: nat): (name: string)
    requires NameMatchesAt(s, i)
    ensures |name| > |Namespace| && name[..|Namespace|] == Namespace && IsWord(name[|Namespace|..])
    ensures i + |name| <= |s| && s[i..i + |name|] == name
    ensures i + |name| == |s| || !IsWordChar(s[i + |name|])
  {
    var n := WordRun(s, i + |Namespace|);
    var name := s[i..i + |Namespace| + n];
    assert name[|Namespace|..] == s[i + |Namespace|..i + |Namespace| + n];
    name
  }

  /** `([\w_]+)=([\w_]+)` tried at exactly position `i`: the two groups and where the match ends. */
  function PairMatchAt(s: string, i: nat): (r: Option<(Property, nat)>)
    requires i <= |s|
    ensures r.Some? ==> IsWord(r.value.0.0) && IsWord(r.value.0.1)
    ensures r.Some? ==> r.value.1 == i + |r.value.0.0| + 1 + |r.value.0.1| <= |s|
    ensures r.Some? ==> s[i..r.value.1] == r.value.0.0 + "=" + r.value.0.1
    ensures r.Some? ==> r.value.1 == |s| || !IsWordChar(s[r.value.1])
    ensures (var k := WordRun(s, i); k > 0 && i + k + 1 < |s| && s[i + k] == '=' && IsWordChar(s[i + k + 1])) ==> r.Some?
  {
    var k := WordRun(s, i);
    if k == 0 || i + k == |s| || s[i + k] != '=' then None
    else
      var v := WordRun(s, i + k + 1);
      if v == 0 then None
      else
        assert s[i..i + k + 1 + v] == s[i..i + k] + "=" + s[i + k + 1..i + k + 1 + v];
        Some(((s[i..i + k], s[i + k + 1..i + k + 1 + v]), i + k + 1 + v))
  }

  /**
   * `paramsRegex.Matches(block)` from position `i`: the leftmost match, then the next
   * search resumes where that match ended, so matches never overlap. Every match is a
   * pair of words and takes at least three characters (`k=v`).
   */
  function PairMatches(s: string, i: nat): (r: seq<Property>)
    requires i <= |s|
    ensures forall j :: 0 <= j < |r| ==> IsWord(r[j].0) && IsWord(r[j].1)
    ensures 3 * |r| <= |s| - i
    decreases |s| - i
  {
    if i == |s| then []
    else match PairMatchAt(s, i)
      case Some((p, e)) =>
        var rest := PairMatches(s, e);
        assert forall j :: 1 <= j < |rest| + 1 ==> ([p] + rest)[j] == rest[j - 1];
        [p] + rest
      case None => PairMatches(s, i + 1)
  }

  /** The scan finds nothing exactly when no pair matches at any position from `i` on. */
  lemma {:induction false} PairMatchesEmpty(s: string, i: nat)
    requires i <= |s|
    ensures PairMatches(s, i) == [] <==> forall t: nat :: i <= t < |s| ==> PairMatchAt(s, t).None?
    decreases |s| - i
  {
    if i < |s| {
      if PairMatchAt(s, i).None? {
        PairMatchesEmpty(s, i + 1);
        assert PairMatches(s, i) == PairMatches(s, i + 1);
      } else {
        assert PairMatches(s, i) != [];
      }
    }
  }

  /**
   * What `Parse` returns. The source tests `bracketsRegex.Match(block) == null`, which
   * is never true (`Regex.Match` returns a match object, successful or not), so the
   * whole space-stripped text is always scanned and the property array is never null.
   */
  function Parsed(text: string): (b: Block)
    ensures b.additionalProperties.Some?
    ensures b.name == "" || (|b.name| > |Namespace| && b.name[..|Namespace|] == Namespace && IsWord(b.name[|Namespace|..]))
    ensures forall j :: 0 <= j < |b.additionalProperties.value| ==>
      IsWord(b.additionalProperties.value[j].0) && IsWord(b.additionalProperties.value[j].1)
  {
    var s := StripSpaces(text);
    Block(MatchName(s), Some(PairMatches(s, 0)))
  }

  /** `Parse`: strips spaces, matches the name, then copies every pair match into a fresh array. */
  method Parse(block: string) returns (b: Block)
    ensures b == Parsed(block)
  {
    var text := StripSpaces(block);
    var name := MatchName(text);
    var matches := PairMatches(text, 0);
    var properties := CopyMatches(matches);
    b := Block(name, Some(properties[..]));
  }

  /** The loop of `Parse`: slot `i` of a fresh array receives the two groups of match `i`. */
  method CopyMatches(matches: seq<Property>) returns (properties: array<Property>)
    ensures fresh(properties)
    ensures properties[..] == matches
  {
    properties := new Property[|matches|];
    for i := 0 to |matches|
      invariant forall j :: 0 <= j < i ==> properties[j] == matches[j]
    {
      properties[i] := (matches[i].0, matches[i].1);
    }
    assert properties[..] == matches;
  }

  // ---------------------------------------------------------------------------
  // Round trip
  // ---------------------------------------------------------------------------

  /** Blocks the grammar can carry: `minecraft:` + word name, word keys and values. */
  predicate WellFormed(b: Block) {
    |b.name| > |Namespace| && b.name[..|Namespace|] == Namespace && IsWord(b.name[|Namespace|..]) &&
    (b.additionalProperties.Some? ==>
      forall j :: 0 <= j < |b.additionalProperties.value| ==>
        IsWord(b.additionalProperties.value[j].0) && IsWord(b.additionalProperties.value[j].1))
  }

  /** The property list a block has after a round trip: a null array comes back empty. */
  function PropertiesOrEmpty(b: Block): seq<Property> {
    match b.additionalProperties
    case Some(ps) => ps
    case None => []
  }

  /** Moving past positions where no pair matches does not change the matches found. */
  lemma {:induction false} SkipUnmatched(s: string, i: nat, j: nat)
    requires i <= j <= |s|
    requires forall t: nat :: i <= t < j ==> PairMatchAt(s, t).None?
    ensures PairMatches(s, i) == PairMatches(s, j)
    decreases j - i
  {
    if i < j {
      assert PairMatchAt(s, i).None?;
      SkipUnmatched(s, i + 1, j);
    }
  }

  /** No pair starts inside a word that is not followed by `=`. */
  lemma NoPairInWord(s: string, t: nat, e: nat)
    requires t < e <= |s|
    requires forall k :: t <= k < e ==> IsWordChar(s[k])
    requires e == |s| || (!IsWordChar(s[e]) && s[e] != '=')
    ensures PairMatchAt(s, t).None?
  {
    WordRunIs(s, t, e - t);
  }

  /** The pair match at the start of `key=value,`. */
  lemma PairMatchOfText(s: string, i: nat, key: string, value: string)
    requires IsWord(key) && IsWord(value)
    requires i + |key| + 1 + |value| < |s|
    requires s[i..i + |key|] == key && s[i + |key|] == '='
    requires s[i + |key| + 1..i + |key| + 1 + |value|] == value && s[i + |key| + 1 + |value|] == ','
    ensures PairMatchAt(s, i) == Some(((key, value), i + |key| + 1 + |value|))
  {
    var eq := i + |key|;
    var e := eq + 1 + |value|;
    assert forall k :: i <= k < eq ==> s[k] == key[k - i];
    WordRunIs(s, i, |key|);
    assert forall k :: eq + 1 <= k < e ==> s[k] == value[k - eq - 1];
    WordRunIs(s, eq + 1, |value|);
  }

  /** Where `key=value,rest` sits in `s`, position by position. */
  lemma PropertyLayout(s: string, i: nat, key: string, value: string, rest: string)
    requires i <= |s| && s[i..] == key + "=" + value + "," + rest
    ensures i + |key| + 1 + |value| < |s|
    ensures s[i..i + |key|] == key && s[i + |key|] == '='
    ensures s[i + |key| + 1..i + |key| + 1 + |value|] == value && s[i + |key| + 1 + |value|] == ','
    ensures s[i + |key| + 2 + |value|..] == rest
  {
    var t := s[i..];
    assert t[..|key|] == key;
    assert t[|key| + 1..|key| + 1 + |value|] == value;
    assert t[|key| + 2 + |value|..] == rest;
  }

  /** The first pair of a non-empty property section, written out. */
  lemma PropertiesTextFirst(ps: seq<Property>, rest: string)
    requires |ps| > 0
    ensures PropertiesText(ps) + rest == ps[0].0 + "=" + ps[0].1 + "," + (PropertiesText(ps[1..]) + rest)
  {
  }

  /** The first pair of a property section, position by position, and the section after it. */
  lemma PropertiesTextStep(s: string, i: nat, ps: seq<Property>)
    requires |ps| > 0
    requires i <= |s| && s[i..] == PropertiesText(ps) + "]"
    ensures i + |ps[0].0| + 1 + |ps[0].1| < |s|
    ensures s[i..i + |ps[0].0|] == ps[0].0 && s[i + |ps[0].0|] == '='
    ensures s[i + |ps[0].0| + 1..i + |ps[0].0| + 1 + |ps[0].1|] == ps[0].1
    ensures s[i + |ps[0].0| + 1 + |ps[0].1|] == ','
    ensures s[i + |ps[0].0| + 2 + |ps[0].1|..] == PropertiesText(ps[1..]) + "]"
  {
    PropertiesTextFirst(ps, "]");
    PropertyLayout(s, i, ps[0].0, ps[0].1, PropertiesText(ps[1..]) + "]");
  }

  /** No pair starts at a character that is not a word character. */
  lemma NoPairAtNonWord(s: string, i: nat)
    requires i < |s| && !IsWordChar(s[i])
    ensures PairMatchAt(s, i).None?
  {
    assert WordRun(s, i) == 0;
  }

  /** Where a pair matches, the scan takes it and goes on after its value. */
  lemma PairMatchesTake(s: string, i: nat, p: Property, e: nat)
    requires i < |s| && PairMatchAt(s, i) == Some((p, e))
    ensures PairMatches(s, i) == [p] + PairMatches(s, e)
  {
  }

  /** Where no pair matches, the scan moves on by one character. */
  lemma PairMatchesSkip(s: string, i: nat)
    requires i < |s| && PairMatchAt(s, i).None?
    ensures PairMatches(s, i) == PairMatches(s, i + 1)
  {
  }

  /**
   * The first pair of a property section is matched where it starts, nothing matches
   * at the comma after it, and the rest of the section follows the comma.
   */
  lemma PairsStep(s: string, i: nat, ps: seq<Property>)
    requires |ps| > 0 && IsWord(ps[0].0) && IsWord(ps[0].1)
    requires i <= |s| && s[i..] == PropertiesText(ps) + "]"
    ensures i + |ps[0].0| + 1 + |ps[0].1| < |s|
    ensures PairMatchAt(s, i) == Some((ps[0], i + |ps[0].0| + 1 + |ps[0].1|))
    ensures PairMatchAt(s, i + |ps[0].0| + 1 + |ps[0].1|).None?
    ensures s[i + |ps[0].0| + 2 + |ps[0].1|..] == PropertiesText(ps[1..]) + "]"
  {
    PropertiesTextStep(s, i, ps);
    PairMatchOfText(s, i, ps[0].0, ps[0].1);
    NoPairAtNonWord(s, i + |ps[0].0| + 1 + |ps[0].1|);
  }

  /** Scanning the property section of the serialiser finds exactly its pairs, in order. */
  lemma {:induction false} PairsRoundTrip(s: string, i: nat, ps: seq<Property>)
    requires i <= |s|
    requires forall j :: 0 <= j < |ps| ==> IsWord(ps[j].0) && IsWord(ps[j].1)
    requires s[i..] == PropertiesText(ps) + "]"
    ensures PairMatches(s, i) == ps
    decreases |ps|
  {
    if |ps| == 0 {
      assert s[i..] == "]";
      NoPairAtNonWord(s, i);
      PairMatchesSkip(s, i);
    } else {
      var e := i + |ps[0].0| + 1 + |ps[0].1|;
      PairsStep(s, i, ps);
      PairMatchesTake(s, i, ps[0], e);
      PairMatchesSkip(s, e);
      PairsRoundTrip(s, e + 1, ps[1..]);
      assert ps == [ps[0]] + ps[1..];
    }
  }

  /** In the text of a well-formed block, no pair match starts inside the name. */
  lemma NoPairInName(s: string, name: string)
    requires |name| > |Namespace| && name[..|Namespace|] == Namespace && IsWord(name[|Namespace|..])
    requires |s| >= |name| && s[..|name|] == name
    requires |s| == |name| || s[|name|] == '['
    ensures forall t: nat :: t < |name| ==> PairMatchAt(s, t).None?
  {
    assert forall k :: 0 <= k < |Namespace| ==> s[k] == Namespace[k];
    assert forall k :: |Namespace| <= k < |name| ==> s[k] == name[|Namespace|..][k - |Namespace|];
    forall t: nat | t < |name|
      ensures PairMatchAt(s, t).None?
    {
      if t < |Namespace| - 1 {
        NoPairInWord(s, t, |Namespace| - 1);
      } else if t >= |Namespace| {
        NoPairInWord(s, t, |name|);
      }
    }
  }

  lemma NameOfBlockText(s: string, name: string)
    requires |name| > |Namespace| && name[..|Namespace|] == Namespace && IsWord(name[|Namespace|..])
    requires |s| >= |name| && s[..|name|] == name
    requires |s| == |name| || s[|name|] == '['
    ensures MatchName(s) == name
  {
    assert s[0] == 'm';
    assert s[..|Namespace|] == Namespace;
    assert forall k :: |Namespace| <= k < |name| ==> s[k] == name[|Namespace|..][k - |Namespace|];
    assert NameMatchesAt(s, 0);
    WordRunIs(s, |Namespace|, |name| - |Namespace|);
  }

  lemma {:induction false} PropertiesTextHasNoSpace(ps: seq<Property>)
    requires forall j :: 0 <= j < |ps| ==> IsWord(ps[j].0) && IsWord(ps[j].1)
    ensures ' ' !in PropertiesText(ps)
    decreases |ps|
  {
    if |ps| > 0 {
      PropertiesTextHasNoSpace(ps[1..]);
      assert ' ' !in ps[0].0 && ' ' !in ps[0].1 by {
        assert !IsWordChar(' ');
      }
    }
  }

  /** The text of a well-formed block holds no space, so `Parse` sees it unchanged. */
  lemma McStringHasNoSpace(b: Block)
    requires WellFormed(b)
    ensures StripSpaces(McString(b)) == McString(b)
  {
    var word := b.name[|Namespace|..];
    assert ' ' !in word by {
      assert forall k :: 0 <= k < |word| ==> IsWordChar(word[k]);
      assert !IsWordChar(' ');
    }
    assert ' ' !in Namespace;
    assert ' ' !in b.name by {
      assert b.name == b.name[..|Namespace|] + word;
    }
    var ps := PropertiesOrEmpty(b);
    PropertiesTextHasNoSpace(ps);
    assert ' ' !in McString(b) by {
      if |ps| != 0 {
        assert McString(b) == b.name + "[" + PropertiesText(ps) + "]";
      }
    }
  }

  /** The pair matches of a well-formed block's text are its properties. */
  lemma PairsOfBlockText(s: string, name: string, ps: seq<Property>)
    requires |name| > |Namespace| && name[..|Namespace|] == Namespace && IsWord(name[|Namespace|..])
    requires forall j :: 0 <= j < |ps| ==> IsWord(ps[j].0) && IsWord(ps[j].1)
    requires s == if |ps| == 0 then name else name + "[" + PropertiesText(ps) + "]"
    ensures PairMatches(s, 0) == ps
  {
    assert s[..|name|] == name;
    NoPairInName(s, name);
    if |ps| == 0 {
      SkipUnmatched(s, 0, |s|);
    } else {
      assert s == name + "[" + (PropertiesText(ps) + "]");
      assert s[|name|] == '[';
      assert PairMatchAt(s, |name|).None?;
      SkipUnmatched(s, 0, |name| + 1);
      assert s[|name| + 1..] == PropertiesText(ps) + "]";
      PairsRoundTrip(s, |name| + 1, ps);
    }
  }

  /**
   * Round trip: parsing the text of a well-formed block gives back its name and its
   * properties in order; a null property array comes back as an empty one.
   */
  lemma ParseMcStringRoundTrip(b: Block)
    requires WellFormed(b)
    ensures Parsed(McString(b)) == Block(b.name, Some(PropertiesOrEmpty(b)))
  {
    var ps := PropertiesOrEmpty(b);
    var s := McString(b);
    assert s == if |ps| == 0 then b.name else b.name + "[" + PropertiesText(ps) + "]";
    McStringHasNoSpace(b);
    assert s[..|b.name|] == b.name;
    assert |s| == |b.name| || s[|b.name|] == '[';
    NameOfBlockText(s, b.name);
    PairsOfBlockText(s, b.name, ps);
  }
}
