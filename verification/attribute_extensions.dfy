/**
  Decoding of an attribute's argument list into a name-to-value dictionary,
  and the two lookups built on it (`AttributeExtensions` in the source).
*/
module AttributeExtensions {
  import opened Wrappers
  import opened Syntax
  import Text
  import opened NumberParsing

  /** The boxed value an argument decodes to: a `bool`, an `int`, a `decimal` or a `string`. */
  datatype Value = VBool(b: bool) | VInt(i: int) | VDecimal(d: Decimal) | VString(s: string)

  /** The type argument `T` of the typed lookup, among the four types a value can have. */
  datatype ValueType = BoolType | IntType | DecimalType | StringType

  /** One dictionary entry. */
  datatype Entry = Entry(key: string, value: Value)

  /** The `ArgumentException` that `Dictionary.Add` throws for a key it already holds. */
  datatype ExtractError = DuplicateKey(key: string)

  function TypeOf(v: Value): ValueType {
    match v
    case VBool(_) => BoolType
    case VInt(_) => IntType
    case VDecimal(_) => DecimalType
    case VString(_) => StringType
  }

  /** `default(T)`: `false`, `0`, `0m`, and `null` for `string`. */
  function DefaultOf(t: ValueType): (r: Option<Value>)
    ensures r.Some? <==> t != StringType
    ensures r.Some? ==> TypeOf(r.value) == t
  {
    match t
    case BoolType => Some(VBool(false))
    case IntType => Some(VInt(0))
    case DecimalType => Some(VDecimal(Decimal(0, 0)))
    case StringType => None
  }

  /**
    The local `ParseNumericLiteral`: a 32-bit `int` if the text is one, else a
    `decimal`, else `0`. Whenever the text is a decimal, the result is that
    number, as the `decimal` itself or as an equal `int`; text that is not even
    a decimal gives `0`.
  */
  function ParseNumericLiteral(text: string): (r: Value)
    ensures r.VInt? || r.VDecimal?
    ensures r.VInt? ==> MinInt32 <= r.i <= MaxInt32
    ensures ParseInt32(text).Some? ==> r == VInt(ParseInt32(text).value)
    ensures ParseDecimal(text).Some?
            ==> r == VDecimal(ParseDecimal(text).value) || (r.VInt? && ParseDecimal(text).value == Decimal(r.i, 0))
    ensures ParseDecimal(text).None? ==> r == VInt(0)
  {
    Int32ParseAgreesWithDecimal(text);
    match ParseInt32(text)
    case Some(n) => VInt(n)
    case None =>
      match ParseDecimal(text)
      case Some(d) => VDecimal(d)
      case None => VInt(0)
  }

  /**
    The `kind switch`: the literal's kind alone picks the variant. `true` and
    `false` ignore the text; every kind other than the boolean and numeric ones
    keeps the text, minus all leading and trailing `"` characters.
  */
  function DecodeLiteral(kind: LiteralKind, text: string): (r: Value)
    ensures r.VBool? <==> kind == TrueLiteral || kind == FalseLiteral
    ensures r.VBool? ==> r.b == (kind == TrueLiteral)
    ensures r.VInt? || r.VDecimal? <==> kind == NumericLiteral
    ensures r.VString? ==> r.s == Text.Trim(text, {'"'})
    ensures r.VString? ==> |r.s| <= |text| && (r.s == [] || (r.s[0] != '"' && r.s[|r.s| - 1] != '"'))
  {
    match kind
    case FalseLiteral => VBool(false)
    case TrueLiteral => VBool(true)
    case NumericLiteral => ParseNumericLiteral(text)
    case _ => VString(Text.Trim(text, {'"'}))
  }

  /**
    The dictionary key: the `Name =` text trimmed, stripped of trailing `=`
    and trimmed again; the empty string for an argument without one.
  */
  function KeyOf(nameEquals: Option<string>): (k: string)
    ensures nameEquals.None? ==> k == ""
    ensures k == [] || (k[0] !in Text.WhiteSpace && k[|k| - 1] !in Text.WhiteSpace)
  {
    match nameEquals
    case None => ""
    case Some(t) => Text.Trim(Text.TrimEnd(Text.Trim(t, Text.WhiteSpace), {'='}), Text.WhiteSpace)
  }

  /** The entry an argument contributes: one for a literal expression, none otherwise. */
  function EntryOf(arg: Argument): (r: Option<Entry>)
    ensures r.Some? <==> arg.expr.Literal?
    ensures r.Some? ==> r.value.key == KeyOf(arg.nameEquals)
  {
    match arg.expr
    case Literal(kind, text) => Some(Entry(KeyOf(arg.nameEquals), DecodeLiteral(kind, text)))
    case NonLiteral(_) => None
  }

  /** The optional entry of every argument, in argument order. */
  function Candidates(args: seq<Argument>): (c: seq<Option<Entry>>)
    ensures |c| == |args|
    ensures forall i :: 0 <= i < |args| ==> c[i] == EntryOf(args[i])
  {
    seq(|args|, i requires 0 <= i < |args| => EntryOf(args[i]))
  }

  /** The present entries of `c`, in order, duplicates kept. */
  function Present(c: seq<Option<Entry>>): (r: seq<Entry>)
    ensures |r| <= |c|
  {
    if c == [] then []
    else
      var init := Present(c[..|c| - 1]);
      match c[|c| - 1]
      case None => init
      case Some(e) => init + [e]
  }

  /** The entries of all literal arguments, in argument order, duplicates kept. */
  function Decoded(args: seq<Argument>): seq<Entry> {
    Present(Candidates(args))
  }

  function KeySet(d: seq<Entry>): set<string> {
    set e | e in d :: e.key
  }

  predicate DistinctKeys(d: seq<Entry>) {
    forall i, j :: 0 <= i < j < |d| ==> d[i].key != d[j].key
  }

  /** One `Dictionary.Add` step: append a present entry, or fail on a key already held. */
  function Insert(d: seq<Entry>, candidate: Option<Entry>): (r: Result<seq<Entry>, ExtractError>)
    ensures r.Failure? <==> candidate.Some? && candidate.value.key in KeySet(d)
    ensures r.Success? ==> r.value == d + (if candidate.Some? then [candidate.value] else [])
    ensures r.Success? && DistinctKeys(d) ==> DistinctKeys(r.value)
  {
    match candidate
    case None => Success(d)
    case Some(e) =>
      if e.key in KeySet(d) then Failure(DuplicateKey(e.key))
      else
        assert forall i :: 0 <= i < |d| ==> d[i] in d;
        Success(d + [e])
  }

  /** `Insert` folded over the candidates from the left, starting from an empty dictionary. */
  function InsertAll(c: seq<Option<Entry>>): (r: Result<seq<Entry>, ExtractError>)
    ensures r.Success? ==> DistinctKeys(r.value)
  {
    if c == [] then Success([])
    else
      match InsertAll(c[..|c| - 1])
      case Failure(e) => Failure(e)
      case Success(d) => Insert(d, c[|c| - 1])
  }

  /** What `GetAttributeProperties` computes. */
  function Extract(args: seq<Argument>): (r: Result<seq<Entry>, ExtractError>)
    ensures r.Success? ==> DistinctKeys(r.value)
  {
    InsertAll(Candidates(args))
  }

  /**
    `GetAttributeProperties`: walks the arguments, decodes each literal one and
    adds it to the dictionary, which keeps insertion order. The result holds
    every literal argument's entry when their keys are distinct, and is the
    duplicate-key failure otherwise.
  */
  method GetAttributeProperties(args: seq<Argument>) returns (r: Result<seq<Entry>, ExtractError>)
    ensures r == Extract(args)
    ensures r.Success? <==> DistinctKeys(Decoded(args))
    ensures r.Success? ==> r.value == Decoded(args)
    ensures r.Failure? ==> 2 <= KeyCount(Decoded(args), r.error.key)
  {
    ghost var c := Candidates(args);
    var dic: seq<Entry> := [];
    for i := 0 to |args|
      invariant InsertAll(c[..i]) == Success(dic)
    {
      InsertAllStep(c, i);
      var arg := args[i];
      if arg.expr.Literal? {
        var value := DecodeLiteral(arg.expr.kind, arg.expr.text);
        var key := KeyOf(arg.nameEquals);
        assert c[i] == Some(Entry(key, value));
        if key in KeySet(dic) {
          r := Failure(DuplicateKey(key));
          InsertAllFailurePersists(c, i + 1);
          InsertAllMatchesPresent(c);
          return;
        }
        dic := dic + [Entry(key, value)];
      } else {
        assert c[i] == None;
      }
    }
    assert c[..|args|] == c;
    r := Success(dic);
    InsertAllMatchesPresent(c);
  }

  /** The fold over one more candidate is one more `Insert`, unless it has already failed. */
  lemma InsertAllStep(c: seq<Option<Entry>>, i: nat)
    requires i < |c|
    ensures InsertAll(c[..i + 1])
            == match InsertAll(c[..i])
               case Failure(e) => Failure(e)
               case Success(d) => Insert(d, c[i])
  {
    assert c[..i + 1][..i] == c[..i];
  }

  /** How many entries carry key `k`. */
  function KeyCount(d: seq<Entry>, k: string): nat {
    if d == [] then 0
    else KeyCount(d[..|d| - 1], k) + (if d[|d| - 1].key == k then 1 else 0)
  }

  /** A failure on some prefix is the failure of the whole fold: later candidates never mask it. */
  lemma {:induction false} InsertAllFailurePersists(c: seq<Option<Entry>>, n: nat)
    requires n <= |c| && InsertAll(c[..n]).Failure?
    ensures InsertAll(c) == InsertAll(c[..n])
    decreases |c| - n
  {
    if n < |c| {
      var p := c[..n + 1];
      assert p[..|p| - 1] == c[..n];
      InsertAllFailurePersists(c, n + 1);
    } else {
      assert c[..n] == c;
    }
  }

  lemma {:induction false} KeyCountInKeySet(d: seq<Entry>, k: string)
    ensures k in KeySet(d) <==> KeyCount(d, k) > 0
  {
    if d != [] {
      var init := d[..|d| - 1];
      KeyCountInKeySet(init, k);
      assert d == init + [d[|d| - 1]];
      assert forall e :: e in d <==> e in init || e == d[|d| - 1];
    }
  }

  /** A sequence of entries has distinct keys exactly when no key is counted twice. */
  lemma {:induction false} DistinctKeysCount(d: seq<Entry>)
    ensures DistinctKeys(d) <==> forall k :: KeyCount(d, k) <= 1
  {
    if d != [] {
      var init := d[..|d| - 1];
      var last := d[|d| - 1];
      DistinctKeysCount(init);
      KeyCountInKeySet(init, last.key);
      if DistinctKeys(d) {
        assert last.key !in KeySet(init);
        assert DistinctKeys(init) by {
          forall i, j | 0 <= i < j < |init| ensures init[i].key != init[j].key {
            assert init[i] == d[i] && init[j] == d[j];
          }
        }
        forall k ensures KeyCount(d, k) <= 1 {
          KeyCountInKeySet(init, k);
        }
      } else {
        var i, j :| 0 <= i < j < |d| && d[i].key == d[j].key;
        if j < |d| - 1 {
          assert init[i] == d[i] && init[j] == d[j];
          assert !DistinctKeys(init);
          var k :| KeyCount(init, k) > 1;
          assert KeyCount(d, k) >= KeyCount(init, k);
        } else {
          assert init[i] in init;
          assert KeyCount(d, last.key) >= 2;
        }
      }
    }
  }

  /**
    The fold succeeds exactly when the present entries' keys are distinct, and
    then yields exactly those entries in order; when it fails, the key it
    reports is carried by at least two present entries.
  */
  lemma {:induction false} InsertAllMatchesPresent(c: seq<Option<Entry>>)
    ensures InsertAll(c).Success? <==> DistinctKeys(Present(c))
    ensures InsertAll(c).Success? ==> InsertAll(c).value == Present(c)
    ensures InsertAll(c).Failure? ==> 2 <= KeyCount(Present(c), InsertAll(c).error.key)
  {
    DistinctKeysCount(Present(c));
    if c != [] {
      var init := c[..|c| - 1];
      InsertAllMatchesPresent(init);
      DistinctKeysCount(Present(init));
      match c[|c| - 1]
      case None =>
      case Some(e) =>
        var d := Present(c);
        assert d[..|d| - 1] == Present(init);
        KeyCountInKeySet(Present(init), e.key);
        if InsertAll(init).Success? && e.key !in KeySet(Present(init)) {
          forall k ensures KeyCount(d, k) <= 1 {
            assert KeyCount(d, k) == KeyCount(Present(init), k) + (if e.key == k then 1 else 0);
          }
        }
    }
  }

  /**
    `GetAttributeProperties` succeeds exactly when the literal arguments' keys
    are distinct, and then holds every literal argument's entry in argument
    order; when it fails, the reported key belongs to two literal arguments.
  */
  lemma ExtractMatchesDecoded(args: seq<Argument>)
    ensures Extract(args).Success? <==> DistinctKeys(Decoded(args))
    ensures Extract(args).Success? ==> Extract(args).value == Decoded(args)
    ensures Extract(args).Failure? ==> 2 <= KeyCount(Decoded(args), Extract(args).error.key)
  {
    InsertAllMatchesPresent(Candidates(args));
  }

  /** `Present` distributes over concatenation: the order of candidates is the order of entries. */
  lemma {:induction false} PresentAppend(a: seq<Option<Entry>>, b: seq<Option<Entry>>)
    ensures Present(a + b) == Present(a) + Present(b)
  {
    if b == [] {
      assert a + b == a;
    } else {
      var b' := b[..|b| - 1];
      assert (a + b)[..|a + b| - 1] == a + b';
      assert (a + b)[|a + b| - 1] == b[|b| - 1];
      PresentAppend(a, b');
    }
  }

  /** Decoding distributes over concatenation: entries come out in argument order. */
  lemma DecodedAppend(a: seq<Argument>, b: seq<Argument>)
    ensures Decoded(a + b) == Decoded(a) + Decoded(b)
  {
    CandidatesAppend(a, b);
    PresentAppend(Candidates(a), Candidates(b));
  }

  lemma CandidatesAppend(a: seq<Argument>, b: seq<Argument>)
    ensures Candidates(a + b) == Candidates(a) + Candidates(b)
  {
    var l, r := Candidates(a + b), Candidates(a) + Candidates(b);
    forall i | 0 <= i < |a + b| ensures l[i] == r[i] {
      if i < |a| {
        assert (a + b)[i] == a[i];
      } else {
        assert (a + b)[i] == b[i - |a|];
      }
    }
  }

  /** An entry is present exactly when some candidate holds it. */
  lemma {:induction false} PresentMembers(c: seq<Option<Entry>>, e: Entry)
    ensures e in Present(c) <==> exists i :: 0 <= i < |c| && c[i] == Some(e)
  {
    if c != [] {
      var init := c[..|c| - 1];
      PresentMembers(init, e);
      assert forall i :: 0 <= i < |init| ==> init[i] == c[i];
      assert Present(c) == Present(init) + (if c[|c| - 1].Some? then [c[|c| - 1].value] else []);
    }
  }

  /** An entry is decoded exactly when some literal argument contributes it: non-literal arguments contribute nothing. */
  lemma DecodedEntries(args: seq<Argument>, e: Entry)
    ensures e in Decoded(args) <==> exists i :: 0 <= i < |args| && EntryOf(args[i]) == Some(e)
  {
    var c := Candidates(args);
    PresentMembers(c, e);
    if exists i :: 0 <= i < |c| && c[i] == Some(e) {
      var i :| 0 <= i < |c| && c[i] == Some(e);
      assert EntryOf(args[i]) == Some(e);
    }
  }

  /** Two literal arguments with the same key (two positional ones, say) make the whole extraction fail. */
  lemma RepeatedKeyFails(args: seq<Argument>, i: nat, j: nat)
    requires i < j < |args| && args[i].expr.Literal? && args[j].expr.Literal?
    requires KeyOf(args[i].nameEquals) == KeyOf(args[j].nameEquals)
    ensures Extract(args).Failure?
  {
    var c := Candidates(args);
    assert c[i] == EntryOf(args[i]) && c[j] == EntryOf(args[j]);
    RepeatedCandidateFails(c, i, j);
  }

  lemma RepeatedCandidateFails(c: seq<Option<Entry>>, i: nat, j: nat)
    requires i < j < |c| && c[i].Some? && c[j].Some? && c[i].value.key == c[j].value.key
    ensures InsertAll(c).Failure?
  {
    InsertAllMatchesPresent(c);
    PresentAround(c, j);
    assert c[..j][i] == c[i];
    PresentMembers(c[..j], c[i].value);
    RepeatedKeyNotDistinct(Present(c[..j]), c[i].value, c[j].value, Present(c[j + 1..]));
  }

  /** The present entries around a present candidate. */
  lemma PresentAround(c: seq<Option<Entry>>, j: nat)
    requires j < |c| && c[j].Some?
    ensures Present(c) == Present(c[..j]) + [c[j].value] + Present(c[j + 1..])
  {
    assert c == c[..j] + [c[j]] + c[j + 1..];
    PresentAppend(c[..j] + [c[j]], c[j + 1..]);
    PresentAppend(c[..j], [c[j]]);
    assert [c[j]][..0] == [];
  }

  lemma RepeatedKeyNotDistinct(p: seq<Entry>, x: Entry, e: Entry, q: seq<Entry>)
    requires x in p && x.key == e.key
    ensures !DistinctKeys(p + [e] + q)
  {
    var m :| 0 <= m < |p| && p[m] == x;
    var d := p + [e] + q;
    assert d[m] == x && d[|p|] == e;
  }

  /** The first entry with key `key`, as `Dictionary`'s indexer finds it. */
  function Lookup(d: seq<Entry>, key: string): (r: Option<Value>)
    ensures r.Some? <==> key in KeySet(d)
    ensures r.Some? ==> Entry(key, r.value) in d
  {
    if d == [] then None
    else if d[0].key == key then Some(d[0].value)
    else
      var r := Lookup(d[1..], key);
      assert forall e :: e in d[1..] ==> e in d;
      assert key in KeySet(d) ==> key in KeySet(d[1..]) by {
        if key in KeySet(d) {
          var e :| e in d && e.key == key;
          assert e != d[0];
          assert e in d[1..];
        }
      }
      r
  }

  /**
    `GetAttributeProperty`: the value stored under `name`, or `null` when no
    entry has that key. A failing extraction still fails.
  */
  function GetAttributeProperty(args: seq<Argument>, name: string): (r: Result<Option<Value>, ExtractError>)
    ensures r.Failure? <==> Extract(args).Failure?
    ensures r.Failure? ==> r.error == Extract(args).error
    ensures r.Success? ==> (r.value.None? <==> name !in KeySet(Extract(args).value))
    ensures r.Success? && r.value.Some? ==> Entry(name, r.value.value) in Extract(args).value
  {
    match Extract(args)
    case Failure(e) => Failure(e)
    case Success(d) => Success(Lookup(d, name))
  }

  /**
    When extraction succeeds, the untyped lookup returns `v` exactly when some
    literal argument keyed `name` decodes to `v`, and `null` exactly when no
    literal argument is keyed `name`.
  */
  lemma GetAttributePropertySpec(args: seq<Argument>, name: string, v: Value)
    requires Extract(args).Success?
    ensures GetAttributeProperty(args, name) == Success(Some(v))
            <==> exists i :: 0 <= i < |args| && EntryOf(args[i]) == Some(Entry(name, v))
    ensures GetAttributeProperty(args, name) == Success(None)
            <==> forall i :: 0 <= i < |args| && args[i].expr.Literal? ==> KeyOf(args[i].nameEquals) != name
  {
    ExtractMatchesDecoded(args);
    var d := Decoded(args);
    DecodedEntries(args, Entry(name, v));
    var r := GetAttributeProperty(args, name);
    if exists i :: 0 <= i < |args| && EntryOf(args[i]) == Some(Entry(name, v)) {
      assert Entry(name, v) in d;
      assert name in KeySet(d);
      var w := r.value.value;
      assert Entry(name, w) in d;
      var a :| 0 <= a < |d| && d[a] == Entry(name, v);
      var b :| 0 <= b < |d| && d[b] == Entry(name, w);
      assert a == b;
    }
    if forall i :: 0 <= i < |args| && args[i].expr.Literal? ==> KeyOf(args[i].nameEquals) != name {
      if name in KeySet(d) {
        var e :| e in d && e.key == name;
        DecodedEntries(args, e);
      }
    } else {
      var i :| 0 <= i < |args| && args[i].expr.Literal? && KeyOf(args[i].nameEquals) == name;
      DecodedEntries(args, EntryOf(args[i]).value);
    }
  }

  /**
    `GetAttributeProperty<T>`: the stored value when it is exactly a `T`, and
    `default(T)` when the key is missing or the value is of another type.
    Extraction failures are not caught.
  */
  function GetTypedAttributeProperty(args: seq<Argument>, name: string, t: ValueType)
    : (r: Result<Option<Value>, ExtractError>)
    ensures r.Failure? <==> Extract(args).Failure?
    ensures r.Failure? ==> r.error == Extract(args).error
    ensures GetAttributeProperty(args, name) == Success(None) ==> r == Success(DefaultOf(t))
    ensures r.Success? && r.value.Some? ==> TypeOf(r.value.value) == t
    ensures r.Success? ==> r.value == DefaultOf(t) || GetAttributeProperty(args, name) == r
  {
    match GetAttributeProperty(args, name)
    case Failure(e) => Failure(e)
    case Success(None) => Success(DefaultOf(t))
    case Success(Some(v)) => if TypeOf(v) == t then Success(Some(v)) else Success(DefaultOf(t))
  }

  /**
    When extraction succeeds, the typed lookup returns `v` exactly when `v` is
    a `T` that a literal argument keyed `name` decodes to; when no literal
    argument keyed `name` holds a `T` (none is keyed `name`, or its value is of
    another type, such as a string where an `int` is asked for), it returns
    `default(T)`.
  */
  lemma TypedLookupSpec(args: seq<Argument>, name: string, t: ValueType, v: Value)
    requires Extract(args).Success?
    ensures TypeOf(v) == t && (exists i :: 0 <= i < |args| && EntryOf(args[i]) == Some(Entry(name, v)))
            ==> GetTypedAttributeProperty(args, name, t) == Success(Some(v))
    ensures (forall i :: 0 <= i < |args| && args[i].expr.Literal? && KeyOf(args[i].nameEquals) == name
                         ==> TypeOf(EntryOf(args[i]).value.value) != t)
            ==> GetTypedAttributeProperty(args, name, t) == Success(DefaultOf(t))
  {
    GetAttributePropertySpec(args, name, v);
    var u := GetAttributeProperty(args, name);
    if u.value.Some? {
      var w := u.value.value;
      GetAttributePropertySpec(args, name, w);
      var i :| 0 <= i < |args| && EntryOf(args[i]) == Some(Entry(name, w));
      assert args[i].expr.Literal? && KeyOf(args[i].nameEquals) == name;
    }
  }

  /**
    A `Name =` clause written as the name, trivia, `=`, trivia yields the bare
    name as its key, however much white space surrounds it.
  */
  lemma KeyOfNameEquals(lead: string, name: string, gap: string, trail: string)
    requires Text.AllIn(lead, Text.WhiteSpace) && Text.AllIn(gap, Text.WhiteSpace)
    requires Text.AllIn(trail, Text.WhiteSpace)
    requires name != [] && name[0] !in Text.WhiteSpace && name[|name| - 1] !in Text.WhiteSpace
    requires name[|name| - 1] != '='
    ensures KeyOf(Some(lead + name + gap + "=" + trail)) == name
  {
    assert '=' !in Text.WhiteSpace;
    Text.TrimNameClause(lead, name, gap, '=', trail, Text.WhiteSpace);
  }

  /**
    A numeric literal's text, digits with any leading zeros and any white
    space around them (the literal's trivia), decodes to that `int` when the
    value fits in 32 bits and to a `decimal` of scale zero beyond.
  */
  lemma NumeralDecodes(w1: string, s: string, w2: string)
    requires Text.AllIn(w1, NumberWhite) && Text.AllIn(w2, NumberWhite)
    requires s != [] && AllDigits(s)
    ensures DecodeLiteral(NumericLiteral, w1 + s + w2)
            == if DigitsValue(s) <= MaxInt32 then VInt(DigitsValue(s)) else VDecimal(Decimal(DigitsValue(s), 0))
  {
    ParseInt32Padded(w1, s, w2);
    ParseDecimalPadded(w1, s, w2);
  }

  /** In particular every `n` written out in the shortest way decodes to `n`, as an `int` or a `decimal`. */
  lemma ShortestNumeralDecodes(n: nat)
    ensures DecodeLiteral(NumericLiteral, NatText(n))
            == if n <= MaxInt32 then VInt(n) else VDecimal(Decimal(n, 0))
  {
    NatTextRoundTrip(n);
    ParseInt32Digits(NatText(n));
    ParseDecimalDigits(NatText(n));
  }

  /** Padded `whole.fraction` is never an `int`: it decodes to the `decimal` of that scale. */
  lemma PointedNumeralDecodes(w1: string, whole: string, fraction: string, w2: string)
    requires Text.AllIn(w1, NumberWhite) && Text.AllIn(w2, NumberWhite)
    requires whole != [] && AllDigits(whole) && AllDigits(fraction)
    ensures AllDigits(whole + fraction)
    ensures var s := whole + "." + fraction;
            DecodeLiteral(NumericLiteral, w1 + s + w2) == VDecimal(Decimal(DigitsValue(whole + fraction), |fraction|))
  {
    ParsePointedPadded(w1, whole, fraction, w2);
  }

  /**
    A numeric literal with a suffix (`42L`, `1.5m`), a hexadecimal or binary
    prefix, an exponent or a digit separator parses as neither an `int` nor a
    `decimal`, and silently decodes to `0`.
  */
  lemma ForeignNumeralDecodesToZero(text: string)
    requires HasForeignChar(text)
    ensures DecodeLiteral(NumericLiteral, text) == VInt(0)
  {
    ForeignCharRejected(text);
  }

  /**
    Every literal kind other than the boolean and numeric ones loses every `"`
    at either end, not one pair: a string literal's closing quote and any
    escaped quotes just before it all go, and `""` becomes empty.
  */
  lemma QuotedLiteralDecodes(kind: LiteralKind, open: string, content: string, close: string)
    requires kind != TrueLiteral && kind != FalseLiteral && kind != NumericLiteral
    requires Text.AllIn(open, {'"'}) && Text.AllIn(close, {'"'})
    requires content == [] || (content[0] != '"' && content[|content| - 1] != '"')
    ensures DecodeLiteral(kind, open + content + close) == VString(content)
  {
    if content == [] {
      var q := open + content + close;
      assert forall k :: 0 <= k < |q| ==> q[k] == if k < |open| then open[k] else close[k - |open|];
      Text.TrimAllIn(q, {'"'});
    } else {
      Text.TrimSurrounded(open, content, close, {'"'});
    }
  }

  /** `null` and `default` literals decode to their keywords as strings. */
  lemma KeywordLiteralsDecode()
    ensures DecodeLiteral(NullLiteral, "null") == VString("null")
    ensures DecodeLiteral(DefaultLiteral, "default") == VString("default")
  {
    Text.TrimKeeps("null", {'"'});
    Text.TrimKeeps("default", {'"'});
  }

  /**
    Leading trivia stops the trimming at the front: a string literal whose text
    starts with white space keeps its opening quote and loses only the closing one.
  */
  lemma LeadingTriviaKeepsQuote(lead: string, content: string)
    requires lead != [] && lead[0] != '"'
    requires content != [] && content[|content| - 1] != '"'
    ensures DecodeLiteral(StringLiteral, lead + "\"" + content + "\"") == VString(lead + "\"" + content)
  {
    var kept := lead + "\"" + content;
    assert kept[0] == lead[0] && kept[|kept| - 1] == content[|content| - 1];
    assert lead + "\"" + content + "\"" == [] + kept + "\"";
    Text.TrimSurrounded([], kept, "\"", {'"'});
  }

  /** A character literal keeps its single quotes. */
  lemma CharacterLiteralDecodes(c: char)
    ensures DecodeLiteral(CharacterLiteral, ['\'', c, '\'']) == VString(['\'', c, '\''])
  {
    Text.TrimKeeps(['\'', c, '\''], {'"'});
  }
}
