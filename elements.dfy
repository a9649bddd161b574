/** The element classes of Parser.cs: identifier derivation (Element.ConvertCase),
    the per-element candidate-name vote table (Element.AddCandidateName,
    Element.GetName), XsElement, and the literal numbering of EnumElement.Create. */
module SchemaElements {
  import opened Chars
  import opened Results
  import opened Xml
  import LinqExtensions

  // ---------------------------------------------------------------------------
  // Identifier derivation

  /** Whether a letter at position i is upper-cased: it starts the name or
      follows a non-letter. */
  predicate Capitalise(s: string, i: nat)
    requires i <= |s|
  {
    i == 0 || !IsLetter(s[i - 1])
  }

  /** What the character at position i contributes to the identifier: a letter
      is upper-cased when it is the first character or follows a non-letter
      (a digit counts as a non-letter), other letters and all digits are kept,
      anything else is dropped. */
  function Emitted(s: string, i: nat): (r: string)
    requires i < |s|
  {
    if IsLetter(s[i]) then [if Capitalise(s, i) then ToUpper(s[i]) else s[i]]
    else if IsDigit(s[i]) then [s[i]]
    else []
  }

  /** The identifier text produced by the first n characters of s, without the escape. */
  function Converted(s: string, n: nat): (r: string)
    requires n <= |s|
  {
    if n == 0 then [] else Converted(s, n - 1) + Emitted(s, n - 1)
  }

  /** Number of letters and digits among the first n characters of s. */
  function AlnumCount(s: string, n: nat): (c: nat)
    requires n <= |s|
    ensures c <= n
  {
    if n == 0 then 0 else AlnumCount(s, n - 1) + (if IsLetterOrDigit(s[n - 1]) then 1 else 0)
  }

  /** The state of ConvertCase's loop: the text appended so far and the flag
      that says whether the next letter is upper-cased. */
  datatype ScanState = ScanState(out: string, cap: bool)

  /** ConvertCase's state after the first n characters, one step per character. */
  function Scan(s: string, n: nat): (st: ScanState)
    requires 0 < |s| && n <= |s|
  {
    if n == 0 then ScanState(Escape(s), true)
    else
      var st := Scan(s, n - 1);
      var c := s[n - 1];
      if IsLetter(c) then
        if st.cap then ScanState(st.out + [ToUpper(c)], false) else ScanState(st.out + [c], false)
      else if IsDigit(c) then ScanState(st.out + [c], true)
      else ScanState(st.out, true)
  }

  /** The character-by-character scan and the position-wise definition agree:
      the flag is Capitalise and the text is the escape followed by Converted. */
  lemma {:induction false} ScanIsConverted(s: string, n: nat)
    requires 0 < |s| && n <= |s|
    ensures Scan(s, n) == ScanState(Escape(s) + Converted(s, n), Capitalise(s, n))
  {
    if n > 0 {
      ScanIsConverted(s, n - 1);
    }
  }

  /** The `_` that ConvertCase prepends when the name starts with a digit. */
  function Escape(s: string): (e: string)
    requires |s| > 0
  {
    if IsDigit(s[0]) then "_" else ""
  }

  /** The identifier ConvertCase derives from a non-empty name. */
  function Identifier(s: string): (r: string)
    requires |s| > 0
  {
    Escape(s) + Converted(s, |s|)
  }

  lemma {:induction false} ConvertedLength(s: string, n: nat)
    requires n <= |s|
    ensures |Converted(s, n)| == AlnumCount(s, n)
  {
    if n > 0 {
      ConvertedLength(s, n - 1);
    }
  }

  lemma {:induction false} ConvertedIsAlnum(s: string, n: nat)
    requires n <= |s|
    ensures forall k :: 0 <= k < |Converted(s, n)| ==> IsLetterOrDigit(Converted(s, n)[k])
  {
    if n > 0 {
      ConvertedIsAlnum(s, n - 1);
    }
  }

  /** The letter or digit at position i lands at the slot numbered by the letters
      and digits before it; it is upper-cased exactly when it is a letter that
      starts the name or follows a non-letter. */
  lemma {:induction false} ConvertedAt(s: string, n: nat, i: nat)
    requires i < n <= |s| && IsLetterOrDigit(s[i])
    ensures AlnumCount(s, i) < |Converted(s, n)|
    ensures Converted(s, n)[AlnumCount(s, i)] ==
              if IsLetter(s[i]) && Capitalise(s, i) then ToUpper(s[i]) else s[i]
  {
    var c, e := Converted(s, n - 1), Emitted(s, n - 1);
    var x := if IsLetter(s[i]) && Capitalise(s, i) then ToUpper(s[i]) else s[i];
    assert Converted(s, n) == c + e;
    ConvertedLength(s, n - 1);
    if i < n - 1 {
      ConvertedAt(s, n - 1, i);
      assert c[AlnumCount(s, i)] == x;
      assert (c + e)[AlnumCount(s, i)] == c[AlnumCount(s, i)];
    } else {
      assert e == [x];
      assert AlnumCount(s, i) == |c|;
      assert (c + e)[|c|] == x;
    }
  }

  /** The shape of a derived identifier: letters and digits only, except a
      leading `_` present exactly when the name starts with a digit, and one
      output character per letter or digit of the name. */
  lemma IdentifierShape(s: string)
    requires |s| > 0
    ensures var r := Identifier(s);
      && (|r| > 0 && r[0] == '_' <==> IsDigit(s[0]))
      && (forall k :: 0 <= k < |r| ==> IsLetterOrDigit(r[k]) || (k == 0 && r[k] == '_'))
      && |r| == AlnumCount(s, |s|) + (if IsDigit(s[0]) then 1 else 0)
  {
    ConvertedLength(s, |s|);
    ConvertedIsAlnum(s, |s|);
    var r := Identifier(s);
    var c := Converted(s, |s|);
    if IsDigit(s[0]) {
      assert forall k :: 1 <= k < |r| ==> r[k] == c[k - 1];
    } else {
      assert r == c;
    }
  }

  /** The first word and a half of the example below. */
  lemma PascalCaseExamplePrefix()
    ensures Converted("the-quick-brown", 7) == "TheQui"
  {
    var s := "the-quick-brown";
    assert Converted(s, 1) == "T";
    assert Converted(s, 2) == "Th";
    assert Converted(s, 3) == "The";
    assert Converted(s, 4) == "The";
    assert Converted(s, 5) == "TheQ";
    assert Converted(s, 6) == "TheQu";
  }

  /** The example in the documentation comment of ConvertCase. */
  lemma PascalCaseExample()
    ensures Identifier("the-quick-brown") == "TheQuickBrown"
  {
    var s := "the-quick-brown";
    PascalCaseExamplePrefix();
    assert Converted(s, 8) == "TheQuic";
    assert Converted(s, 9) == "TheQuick";
    assert Converted(s, 10) == "TheQuick";
    assert Converted(s, 11) == "TheQuickB";
    assert Converted(s, 12) == "TheQuickBr";
    assert Converted(s, 13) == "TheQuickBro";
    assert Converted(s, 14) == "TheQuickBrow";
  }

  /** A leading digit is escaped, a digit starts a new word, separators are dropped. */
  lemma EscapeAndSeparatorExamples()
    ensures Identifier("2fast") == "_2Fast"
    ensures Identifier("a_b-c") == "ABC"
    ensures Identifier("a2b") == "A2B"
  {
    assert Converted("2fast", 1) == "2";
    assert Converted("2fast", 2) == "2F";
    assert Converted("2fast", 3) == "2Fa";
    assert Converted("2fast", 4) == "2Fas";
    assert Converted("a_b-c", 1) == "A";
    assert Converted("a_b-c", 2) == "A";
    assert Converted("a_b-c", 3) == "AB";
    assert Converted("a_b-c", 4) == "AB";
    assert Converted("a2b", 1) == "A";
    assert Converted("a2b", 2) == "A2";
  }

  /** The escape looks at the input's first character, not the output's: a
      digit after a leading separator starts the identifier unescaped. */
  lemma LeadingSeparatorDigit()
    ensures Identifier("-2a") == "2A"
  {
    assert Converted("-2a", 1) == "";
    assert Converted("-2a", 2) == "2";
  }

  /** A name without letters or digits converts to the empty identifier. */
  lemma NoLettersOrDigits()
    ensures Identifier("-") == ""
  {
    assert Converted("-", 1) == Converted("-", 0) + Emitted("-", 0);
  }

  // ---------------------------------------------------------------------------
  // The candidate-name table, an insertion-ordered list of (name, count) pairs

  type Table = seq<(string, nat)>

  function Names(t: Table): (r: seq<string>)
    ensures |r| == |t|
    ensures forall k :: 0 <= k < |t| ==> r[k] == t[k].0
  {
    if t == [] then [] else [t[0].0] + Names(t[1..])
  }

  /** The count recorded for `name`, zero when it was never added. */
  function Count(t: Table, name: string): (c: nat)
  {
    if t == [] then 0 else if t[0].0 == name then t[0].1 else Count(t[1..], name)
  }

  ghost predicate DistinctNames(t: Table) {
    forall i, j :: 0 <= i < j < |t| ==> t[i].0 != t[j].0
  }

  ghost predicate PositiveCounts(t: Table) {
    forall i :: 0 <= i < |t| ==> t[i].1 >= 1
  }

  /** The table after one more vote for `name`. */
  function Bump(t: Table, name: string): (r: Table)
    ensures |r| == |t| || |r| == |t| + 1
  {
    if t == [] then [(name, 1)]
    else if t[0].0 == name then [(name, t[0].1 + 1)] + t[1..]
    else [t[0]] + Bump(t[1..], name)
  }

  /** One vote raises the count of `name` by exactly one and no other count. */
  lemma {:induction false} BumpCounts(t: Table, name: string, other: string)
    ensures Count(Bump(t, name), name) == Count(t, name) + 1
    ensures other != name ==> Count(Bump(t, name), other) == Count(t, other)
  {
    if t != [] && t[0].0 != name {
      BumpCounts(t[1..], name, other);
    }
  }

  /** A new name goes to the end of the insertion order; a known one keeps its place. */
  lemma {:induction false} BumpNames(t: Table, name: string)
    ensures Names(Bump(t, name)) == if name in Names(t) then Names(t) else Names(t) + [name]
  {
    if t != [] && t[0].0 != name {
      BumpNames(t[1..], name);
      assert Names(t) == [t[0].0] + Names(t[1..]);
      assert Names(Bump(t, name)) == [t[0].0] + Names(Bump(t[1..], name));
    }
  }

  /** Bump keeps the names distinct. */
  lemma {:induction false} BumpDistinct(t: Table, name: string)
    requires DistinctNames(t)
    ensures DistinctNames(Bump(t, name))
  {
    if t != [] && t[0].0 != name {
      var head, tail := t[0], t[1..];
      var rest := Bump(tail, name);
      assert DistinctNames(tail) by {
        forall k | 0 <= k < |tail| ensures tail[k] == t[k + 1] { }
      }
      BumpDistinct(tail, name);
      BumpNames(tail, name);
      forall k | 0 <= k < |rest|
        ensures rest[k].0 != head.0
      {
        assert rest[k].0 == Names(rest)[k];
        if k < |tail| {
          assert Names(rest)[k] == Names(tail)[k] == tail[k].0 == t[k + 1].0;
        }
      }
      assert Bump(t, name) == [head] + rest;
      forall i, j | 0 <= i < j < |rest| + 1
        ensures ([head] + rest)[i].0 != ([head] + rest)[j].0
      {
        assert ([head] + rest)[j] == rest[j - 1];
        if i > 0 {
          assert ([head] + rest)[i] == rest[i - 1];
        }
      }
    }
  }

  /** Bump keeps every count positive. */
  lemma {:induction false} BumpPositive(t: Table, name: string)
    requires PositiveCounts(t)
    ensures PositiveCounts(Bump(t, name))
  {
    if t != [] && t[0].0 != name {
      var head, tail := t[0], t[1..];
      assert PositiveCounts(tail) by {
        forall k | 0 <= k < |tail| ensures tail[k] == t[k + 1] { }
      }
      BumpPositive(tail, name);
      var rest := Bump(tail, name);
      assert Bump(t, name) == [head] + rest;
      forall k | 0 <= k < |rest| + 1
        ensures ([head] + rest)[k].1 >= 1
      {
        if k > 0 {
          assert ([head] + rest)[k] == rest[k - 1];
        }
      }
    }
  }

  /** System.Int32.CompareTo, which GetName applies to the counts. */
  function CompareTo(a: int, b: int): (c: int)
    ensures c < 0 <==> a < b
    ensures c > 0 <==> a > b
  {
    if a < b then -1 else if a > b then 1 else 0
  }

  /** The comparison that GetName passes to Max: entries ordered by count. */
  function ByCount(a: (string, nat), b: (string, nat)): (c: int)
    ensures c > 0 <==> a.1 > b.1
  {
    CompareTo(a.1, b.1)
  }

  lemma ByCountIsTotalPreorder()
    ensures LinqExtensions.TotalPreorder(ByCount)
  {
  }

  lemma GetNameExample()
    ensures LinqExtensions.MaxIndex([("item", 3), ("entry", 5), ("record", 5)], ByCount) == 1
  {
  }

  /** The state that every Element has: its candidate-name votes. */
  class Element {
    var candidates: Table

    ghost predicate Valid()
      reads this
    {
      DistinctNames(candidates) && PositiveCounts(candidates)
    }

    constructor ()
      ensures Valid() && candidates == []
    {
      candidates := [];
    }

    /** Raises the count of `name` by one, appending it with count 1 when absent. */
    method AddCandidateName(name: string)
      requires Valid()
      modifies this
      ensures Valid()
      ensures candidates == Bump(old(candidates), name)
    {
      BumpDistinct(candidates, name);
      BumpPositive(candidates, name);
      candidates := Bump(candidates, name);
    }

    /** The name with the highest count; among equal counts the earliest added. */
    method GetName() returns (name: string)
      requires |candidates| > 0
      ensures exists k :: 0 <= k < |candidates| && candidates[k].0 == name
                && (forall j :: 0 <= j < |candidates| ==> candidates[j].1 <= candidates[k].1)
                && (forall j :: 0 <= j < k ==> candidates[j].1 < candidates[k].1)
    {
      var max, calls := LinqExtensions.Max(candidates, ByCount, ("", 0));
      name := max.0;
      var k := LinqExtensions.MaxIndex(candidates, ByCount);
      ByCountIsTotalPreorder();
      forall j | 0 <= j < |candidates|
        ensures candidates[j].1 <= candidates[k].1
      {
        LinqExtensions.MaxIndexIsMaximal(candidates, ByCount, j);
      }
      forall j | 0 <= j < k
        ensures candidates[j].1 < candidates[k].1
      {
        LinqExtensions.MaxIndexIsEarliest(candidates, ByCount, j);
      }
    }

    /** Element.ConvertCase: from XML case to a Pascal-case identifier. */
    static method ConvertCase(xmlStr: string) returns (r: string)
      requires |xmlStr| > 0
      ensures r == Identifier(xmlStr)
    {
      var sb: string := [];
      var cap := true;
      if IsDigit(xmlStr[0]) {
        sb := sb + ['_'];
      }
      var i := 0;
      while i < |xmlStr|
        invariant 0 <= i <= |xmlStr|
        invariant Scan(xmlStr, i) == ScanState(sb, cap)
      {
        var c := xmlStr[i];
        if IsLetter(c) {
          if cap {
            sb := sb + [ToUpper(c)];
            cap := false;
          } else {
            sb := sb + [c];
          }
        } else {
          if IsDigit(c) {
            sb := sb + [c];
          }
          cap := true;
        }
        i := i + 1;
      }
      ScanIsConverted(xmlStr, |xmlStr|);
      r := sb;
    }
  }

  /** An element backed by a node of the schema document. The base class's
      state is the `base` Element. */
  class XsElement {
    const base: Element
    var xElement: Node

    /** Records the element's local name as its first candidate name. */
    constructor (element: Node)
      ensures fresh(base) && base.Valid()
      ensures base.candidates == [(element.localName, 1)]
      ensures xElement == element
    {
      base := new Element();
      new;
      base.AddCandidateName(element.localName);
      xElement := element;
    }
  }

  // ---------------------------------------------------------------------------
  // Enum literals

  datatype Literal = Literal(name: string, ordinal: int)

  /** The literals EnumElement.Create defines for a `choice` node: one per
      `value` child in document order, the k-th named after its text and
      numbered k. An empty value text makes ConvertCase fail. */
  method EnumLiterals(choice: Node) returns (r: Result<seq<Literal>>)
    ensures var values := Elements(choice.children, "value");
      && (r.Success? <==> forall k :: 0 <= k < |values| ==> |values[k].text| > 0)
      && (r.Failure? ==> r.error == EmptyName)
      && (r.Success? ==>
            && |r.value| == |values|
            && (forall k :: 0 <= k < |values| ==> r.value[k] == Literal(Identifier(values[k].text), k)))
  {
    var values := Elements(choice.children, "value");
    var literals: seq<Literal> := [];
    var i := 0;
    for j := 0 to |values|
      invariant i == j == |literals|
      invariant forall k :: 0 <= k < j ==> |values[k].text| > 0
      invariant forall k :: 0 <= k < j ==> literals[k] == Literal(Identifier(values[k].text), k)
    {
      var v := values[j];
      if |v.text| == 0 {
        assert |values[j].text| == 0;
        assert !(forall k :: 0 <= k < |values| ==> |values[k].text| > 0);
        assert Elements(choice.children, "value") == values;
        return Failure(EmptyName);
      }
      var name := Element.ConvertCase(v.text);
      literals := literals + [Literal(name, i)];
      i := i + 1;
    }
    r := Success(literals);
  }
}
