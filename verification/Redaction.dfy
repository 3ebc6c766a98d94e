/**
  Redaction of agent definitions before they are shown: nothing under a sensitive key survives,
  everything else keeps its place, and the list of redacted fields names exactly the places.
*/
module Redaction {
  import opened Prelude
  import opened Strings

  datatype Field = Field(key: string, value: Value)

  /** A JSON value; numbers, strings, booleans and null are scalars. */
  datatype Value = Scalar(text: string) | Obj(fields: seq<Field>) | Arr(items: seq<Value>)

  const MASK := Scalar("<redacted>")

  // ---------------------------------------------------------------------------
  // Sensitive keys
  // ---------------------------------------------------------------------------

  /**
    Python's `lower`, as far as the tests below can tell: two more characters have an ASCII letter in
    their lower case, the Kelvin sign and I with a dot above. Others stay among the foreign ones.
  */
  function LowerChar(c: char): string {
    if 'A' <= c <= 'Z' then [(c as int + 32) as char]
    else if c == '\U{212A}' then "k"
    else if c == '\U{0130}' then "i\U{0307}"
    else [c]
  }

  function Lower(s: string): string {
    if s == "" then "" else LowerChar(s[0]) + Lower(s[1..])
  }

  function Normalized(key: string): string {
    Lower(Replace(key, '-', "_"))
  }

  /** A search that ignores case also takes the long s for s and the dotless i for i. */
  function SearchedChar(c: char): char {
    if c == '\U{017F}' then 's' else if c == '\U{0131}' then 'i' else c
  }

  function Searched(s: string): (r: string)
    ensures |r| == |s| && forall i :: 0 <= i < |s| ==> r[i] == SearchedChar(s[i])
  {
    seq(|s|, i requires 0 <= i < |s| => SearchedChar(s[i]))
  }

  const PATTERNS := [
    "password", "secret", "token", "apikey", "api_key", "privatekey", "private_key",
    "authorization", "bearer", "accesskey", "access_key"
  ]

  predicate Exempt(normalized: string) {
    EndsWith(normalized, "_ref") || normalized == "token_url" || normalized == "token_type"
  }

  predicate Matches(searched: string) {
    exists i :: 0 <= i < |PATTERNS| && Contains(searched, PATTERNS[i])
  }

  predicate Sensitive(key: string) {
    var normalized := Normalized(key);
    !Exempt(normalized) && Matches(Searched(normalized))
  }

  // The search as a regular expression: a word, or two words with at most one separator between them.

  predicate OneWord(t: string) {
    t == "password" || t == "secret" || t == "token" || t == "authorization" || t == "bearer"
  }

  predicate FirstWord(t: string) {
    t == "api" || t == "private" || t == "access"
  }

  /** `t` is a sensitive word, with '_' or '-' or nothing between the parts of a key's name. */
  ghost predicate SensitiveWord(t: string) {
    || OneWord(t)
    || exists first :: FirstWord(first) && (t == first + "key" || t == first + "_key" || t == first + "-key")
  }

  /** Some stretch of the text is a sensitive word. */
  ghost predicate HasSensitiveWord(s: string) {
    exists i, j :: 0 <= i <= j <= |s| && SensitiveWord(s[i..j])
  }

  lemma WordsAreThePatterns(t: string)
    requires '-' !in t
    ensures SensitiveWord(t) <==> t in PATTERNS
  {
    assert "api" + "key" == "apikey" && "api" + "_key" == "api_key";
    assert "private" + "key" == "privatekey" && "private" + "_key" == "private_key";
    assert "access" + "key" == "accesskey" && "access" + "_key" == "access_key";
    assert FirstWord("api") && FirstWord("private") && FirstWord("access");
    if first :| FirstWord(first) && (t == first + "key" || t == first + "_key" || t == first + "-key") {
      HyphenInside(first);
      assert first == "api" || first == "private" || first == "access";
    }
    if i :| 0 <= i < |PATTERNS| && PATTERNS[i] == t {
    }
  }

  lemma HyphenInside(first: string)
    ensures '-' in first + "-key"
  {
    assert (first + "-key")[|first|] == '-';
  }

  lemma StretchIsContained(s: string, t: string)
    ensures Contains(s, t) <==> exists i, j :: 0 <= i <= j <= |s| && s[i..j] == t
  {
    if Contains(s, t) {
      var i :| 0 <= i <= |s| && StartsWith(s[i..], t);
      assert s[i..i + |t|] == s[i..][..|t|];
    }
    if i, j :| 0 <= i <= j <= |s| && s[i..j] == t {
      assert s[i..][..|t|] == s[i..j];
      assert StartsWith(s[i..], t);
    }
  }

  /** What the search finds in text without a hyphen, as the normalization leaves it. */
  lemma MatchesIff(searched: string)
    requires '-' !in searched
    ensures Matches(searched) <==> HasSensitiveWord(searched)
  {
    if Matches(searched) {
      var k :| 0 <= k < |PATTERNS| && Contains(searched, PATTERNS[k]);
      StretchIsContained(searched, PATTERNS[k]);
      var i, j :| 0 <= i <= j <= |searched| && searched[i..j] == PATTERNS[k];
      NoHyphenInside(searched, i, j);
      WordsAreThePatterns(searched[i..j]);
    }
    if HasSensitiveWord(searched) {
      var i, j :| 0 <= i <= j <= |searched| && SensitiveWord(searched[i..j]);
      NoHyphenInside(searched, i, j);
      WordsAreThePatterns(searched[i..j]);
      var k :| 0 <= k < |PATTERNS| && PATTERNS[k] == searched[i..j];
      StretchIsContained(searched, PATTERNS[k]);
    }
  }

  lemma NoHyphenInside(s: string, i: nat, j: nat)
    requires i <= j <= |s| && '-' !in s
    ensures '-' !in s[i..j]
  {
  }

  lemma {:induction false} LowerHasNoHyphen(s: string)
    requires '-' !in s
    ensures '-' !in Lower(s)
  {
    if s != "" {
      assert s[0] in s && forall c :: c in s[1..] ==> c in s;
      LowerHasNoHyphen(s[1..]);
    }
  }

  /**
    A key is sensitive exactly when it reads as a text with a sensitive word in it and is none of the three
    exceptions.
  */
  lemma SensitiveIff(key: string)
    ensures var normalized := Normalized(key);
      Sensitive(key) <==>
        && HasSensitiveWord(Searched(normalized))
        && !(|normalized| >= 4 && normalized[|normalized| - 4..] == "_ref")
        && normalized != "token_url" && normalized != "token_type"
  {
    ReplaceRemoves(key, '-', "_", '-');
    LowerHasNoHyphen(Replace(key, '-', "_"));
    var normalized := Normalized(key);
    assert '-' !in Searched(normalized);
    MatchesIff(Searched(normalized));
    hide Matches, HasSensitiveWord, Normalized;
  }

  /** No part of any pattern, in whatever case. */
  predicate Foreign(c: char) {
    c > '\U{007F}' && SearchedChar(c) == c && c != '\U{212A}' && c != '\U{0130}'
  }

  /** What a character of a key becomes before the search. */
  function Spelled(c: char): string {
    Searched(LowerChar(if c == '-' then '_' else c))
  }

  /** The same letter up to case, or hyphen for underscore; foreign characters stand for each other. */
  predicate SameSpelling(a: char, b: char) {
    Spelled(a) == Spelled(b) || (Foreign(a) && Foreign(b))
  }

  /** Equal up to foreign characters. */
  ghost predicate Alike(x: string, y: string) {
    |x| == |y| && forall i :: 0 <= i < |x| ==> x[i] == y[i] || (Foreign(x[i]) && Foreign(y[i]))
  }

  lemma AlikeJoins(x: string, y: string, x': string, y': string)
    requires Alike(x, y) && Alike(x', y')
    ensures Alike(x + x', y + y')
  {
  }

  lemma {:induction false} SpellingsNormalize(a: string, b: string)
    requires |a| == |b| && forall i :: 0 <= i < |a| ==> SameSpelling(a[i], b[i])
    ensures Alike(Searched(Normalized(a)), Searched(Normalized(b)))
  {
    if a != "" {
      SpellingsNormalize(a[1..], b[1..]);
      NormalizedStep(a);
      NormalizedStep(b);
      assert SameSpelling(a[0], b[0]);
      assert Alike(Spelled(a[0]), Spelled(b[0]));
      hide Normalized, Spelled;
      AlikeJoins(Spelled(a[0]), Spelled(b[0]), Searched(Normalized(a[1..])), Searched(Normalized(b[1..])));
    }
  }

  lemma NormalizedStep(s: string)
    requires s != ""
    ensures Searched(Normalized(s)) == Spelled(s[0]) + Searched(Normalized(s[1..]))
  {
    var head := if s[0] == '-' then '_' else s[0];
    HeadAndTail(head, Replace(s[1..], '-', "_"));
    assert Replace(s, '-', "_") == [head] + Replace(s[1..], '-', "_");
    assert Normalized(s) == LowerChar(head) + Normalized(s[1..]);
  }

  /** Text that the search reads as it is written, and nothing else reads as it. */
  predicate Literal(t: string) {
    forall i :: 0 <= i < |t| ==> t[i] <= '\U{007F}' && t[i] != 's' && t[i] != 'i'
  }

  lemma SearchingKeepsLiteral(x: string, t: string)
    requires Literal(t)
    ensures Searched(x) == t <==> x == t
  {
    if Searched(x) == t {
      assert forall i :: 0 <= i < |x| ==> SearchedChar(x[i]) == t[i];
    }
  }

  lemma SearchingKeepsEnd(x: string, t: string)
    requires Literal(t)
    ensures EndsWith(Searched(x), t) <==> EndsWith(x, t)
  {
    if |t| <= |x| {
      var k := |x| - |t|;
      assert Searched(x)[k..] == Searched(x[k..]);
      SearchingKeepsLiteral(x[k..], t);
    }
  }

  predicate Ascii(t: string) {
    forall i :: 0 <= i < |t| ==> t[i] <= '\U{007F}'
  }

  lemma AlikeEqual(x: string, y: string, t: string)
    requires Alike(x, y) && Ascii(t) && x == t
    ensures y == t
  {
  }

  lemma AlikeEnds(x: string, y: string, t: string)
    requires Alike(x, y) && Ascii(t) && EndsWith(x, t)
    ensures EndsWith(y, t)
  {
    AlikeEqual(x[|x| - |t|..], y[|x| - |t|..], t);
  }

  lemma AlikeContains(x: string, y: string, t: string)
    requires Alike(x, y) && Ascii(t) && Contains(x, t)
    ensures Contains(y, t)
  {
    var i :| 0 <= i <= |x| && StartsWith(x[i..], t);
    assert x[i..][..|t|] == x[i..i + |t|] && y[i..][..|t|] == y[i..i + |t|];
    AlikeEqual(x[i..i + |t|], y[i..i + |t|], t);
    assert StartsWith(y[i..], t);
  }

  lemma AlikeMatches(x: string, y: string)
    requires Alike(x, y) && Matches(x)
    ensures Matches(y)
  {
    var i :| 0 <= i < |PATTERNS| && Contains(x, PATTERNS[i]);
    assert Ascii(PATTERNS[i]);
    AlikeContains(x, y, PATTERNS[i]);
  }

  lemma ExemptBySearch(x: string)
    ensures Exempt(x) <==> Exempt(Searched(x))
  {
    assert Literal("_ref") && Literal("token_url") && Literal("token_type");
    SearchingKeepsEnd(x, "_ref");
    SearchingKeepsLiteral(x, "token_url");
    SearchingKeepsLiteral(x, "token_type");
  }

  lemma AlikeExempt(x: string, y: string)
    requires Alike(x, y) && Exempt(x)
    ensures Exempt(y)
  {
    assert Ascii("_ref") && Ascii("token_url") && Ascii("token_type");
    if EndsWith(x, "_ref") {
      AlikeEnds(x, y, "_ref");
    } else if x == "token_url" {
      AlikeEqual(x, y, "token_url");
    } else {
      AlikeEqual(x, y, "token_type");
    }
  }

  /** What this makes the same: the two cases of a letter, hyphen and underscore, and the odd forms of k, s and i. */
  lemma CasesAreOneSpelling(c: char)
    requires 'a' <= c <= 'z'
    ensures SameSpelling(c, (c as int - 32) as char)
    ensures SameSpelling('-', '_') && SameSpelling('k', '\U{212A}')
    ensures SameSpelling('s', '\U{017F}') && SameSpelling('i', '\U{0131}')
  {
  }

  /** Neither case, in any script, nor the choice of hyphen or underscore makes a key more or less sensitive. */
  lemma SpellingDoesNotMatter(a: string, b: string)
    requires |a| == |b| && forall i :: 0 <= i < |a| ==> SameSpelling(a[i], b[i])
    ensures Sensitive(a) == Sensitive(b)
  {
    SpellingsNormalize(a, b);
    var x, y := Searched(Normalized(a)), Searched(Normalized(b));
    assert Alike(y, x);
    ExemptBySearch(Normalized(a));
    ExemptBySearch(Normalized(b));
    hide Exempt, Matches, Alike, Normalized;
    if Exempt(x) { AlikeExempt(x, y); }
    if Exempt(y) { AlikeExempt(y, x); }
    if Matches(x) { AlikeMatches(x, y); }
    if Matches(y) { AlikeMatches(y, x); }
  }

  // ---------------------------------------------------------------------------
  // Children and positions
  // ---------------------------------------------------------------------------

  function Arity(v: Value): nat {
    match v
    case Scalar(_) => 0
    case Obj(fields) => |fields|
    case Arr(items) => |items|
  }

  function Child(v: Value, i: nat): Value
    requires i < Arity(v)
  {
    if v.Obj? then v.fields[i].value else v.items[i]
  }

  predicate Masked(v: Value, i: nat)
    requires i < Arity(v)
  {
    v.Obj? && Sensitive(v.fields[i].key)
  }

  /** The child indices from the root down. */
  type Position = seq<nat>

  function At(v: Value, pos: Position): Option<Value>
    decreases pos
  {
    if pos == [] then Some(v)
    else if pos[0] >= Arity(v) then None
    else At(Child(v, pos[0]), pos[1..])
  }

  /** Some key on the way is sensitive. */
  predicate Hidden(v: Value, pos: Position)
    decreases pos
  {
    pos != [] && pos[0] < Arity(v) && (Masked(v, pos[0]) || Hidden(Child(v, pos[0]), pos[1..]))
  }

  /** The last key on the way is sensitive and no earlier one is. */
  predicate Outermost(v: Value, pos: Position)
    decreases pos
  {
    pos != [] && pos[0] < Arity(v)
    && if Masked(v, pos[0]) then |pos| == 1 else Outermost(Child(v, pos[0]), pos[1..])
  }

  /** A value without its children: the scalar itself, the keys of an object, the length of a list. */
  datatype Head = ScalarHead(text: string) | ObjHead(keys: seq<string>) | ArrHead(length: nat)

  function HeadOf(v: Value): Head {
    match v
    case Scalar(text) => ScalarHead(text)
    case Obj(fields) => ObjHead(Keys(fields))
    case Arr(items) => ArrHead(|items|)
  }

  function Keys(fields: seq<Field>): (keys: seq<string>)
    ensures |keys| == |fields| && forall i :: 0 <= i < |keys| ==> keys[i] == fields[i].key
  {
    seq(|fields|, i requires 0 <= i < |fields| => fields[i].key)
  }

  // ---------------------------------------------------------------------------
  // Redaction
  // ---------------------------------------------------------------------------

  function Redact(v: Value): Value {
    match v
    case Scalar(_) => v
    case Obj(fields) =>
      Obj(seq(|fields|, i requires 0 <= i < |fields| =>
        Field(fields[i].key, if Sensitive(fields[i].key) then MASK else Redact(fields[i].value))))
    case Arr(items) => Arr(seq(|items|, i requires 0 <= i < |items| => Redact(items[i])))
  }

  lemma RedactChild(v: Value, i: nat)
    requires i < Arity(v)
    ensures Arity(Redact(v)) == Arity(v) && HeadOf(Redact(v)) == HeadOf(v)
    ensures Masked(Redact(v), i) == Masked(v, i)
    ensures Child(Redact(v), i) == if Masked(v, i) then MASK else Redact(Child(v, i))
  {
    RedactHead(v);
  }

  lemma RedactHead(v: Value)
    ensures HeadOf(Redact(v)) == HeadOf(v) && Arity(Redact(v)) == Arity(v)
  {
    if v.Obj? {
      assert Keys(Redact(v).fields) == Keys(v.fields);
    }
  }

  /**
    At every position, at any depth: below the outermost sensitive key nothing is left, at it
    stands the mask, and everywhere else the value has the same scalar, keys or length as before.
  */
  lemma {:induction false} NothingHiddenSurvives(v: Value, pos: Position)
    ensures Outermost(v, pos) ==> At(Redact(v), pos) == Some(MASK)
    ensures Hidden(v, pos) && !Outermost(v, pos) ==> At(Redact(v), pos) == None
    ensures !Hidden(v, pos) ==>
      (At(Redact(v), pos).Some? <==> At(v, pos).Some?)
      && (At(v, pos).Some? ==> HeadOf(At(Redact(v), pos).value) == HeadOf(At(v, pos).value))
    decreases pos
  {
    RedactHead(v);
    if pos != [] && pos[0] < Arity(v) {
      RedactChild(v, pos[0]);
      if Masked(v, pos[0]) {
        assert Arity(MASK) == 0;
      } else {
        NothingHiddenSurvives(Child(v, pos[0]), pos[1..]);
      }
    }
  }

  /** Equal up to what stands under sensitive keys. */
  predicate AgreeOutside(a: Value, b: Value) {
    match a
    case Scalar(_) => a == b
    case Obj(fields) =>
      b.Obj? && |b.fields| == |fields| && forall i :: 0 <= i < |fields| ==>
        fields[i].key == b.fields[i].key
          && (Sensitive(fields[i].key) || AgreeOutside(fields[i].value, b.fields[i].value))
    case Arr(items) =>
      b.Arr? && |b.items| == |items| && forall i :: 0 <= i < |items| ==> AgreeOutside(items[i], b.items[i])
  }

  /** The result tells two values apart exactly when they differ outside sensitive keys. */
  lemma {:induction false} RedactionTellsNothing(a: Value, b: Value)
    ensures Redact(a) == Redact(b) <==> AgreeOutside(a, b)
    decreases a
  {
    RedactHead(a);
    RedactHead(b);
    if a.Obj? && b.Obj? && |a.fields| == |b.fields| {
      forall i | 0 <= i < |a.fields|
        ensures Redact(a).fields[i] == Redact(b).fields[i] <==>
          a.fields[i].key == b.fields[i].key
          && (Sensitive(a.fields[i].key) || AgreeOutside(a.fields[i].value, b.fields[i].value))
      {
        RedactionTellsNothing(a.fields[i].value, b.fields[i].value);
      }
      assert Redact(a).fields == Redact(b).fields <==>
        forall i :: 0 <= i < |a.fields| ==> Redact(a).fields[i] == Redact(b).fields[i];
    } else if a.Arr? && b.Arr? && |a.items| == |b.items| {
      forall i | 0 <= i < |a.items|
        ensures Redact(a).items[i] == Redact(b).items[i] <==> AgreeOutside(a.items[i], b.items[i])
      {
        RedactionTellsNothing(a.items[i], b.items[i]);
      }
      assert Redact(a).items == Redact(b).items <==>
        forall i :: 0 <= i < |a.items| ==> Redact(a).items[i] == Redact(b).items[i];
    }
  }

  // ---------------------------------------------------------------------------
  // The list of redacted fields
  // ---------------------------------------------------------------------------

  function Decimal(n: nat): string {
    (if n < 10 then "" else Decimal(n / 10)) + [(48 + n % 10) as char]
  }

  /** The text of a child's path. */
  function StepPath(v: Value, i: nat, path: string): string
    requires i < Arity(v)
  {
    if v.Obj? then (if path != "" then path + "." + v.fields[i].key else v.fields[i].key)
    else path + "[" + Decimal(i) + "]"
  }

  /** The text of any position below `path`. */
  function PathText(v: Value, path: string, pos: Position): string
    decreases pos
  {
    if pos == [] || pos[0] >= Arity(v) then path
    else PathText(Child(v, pos[0]), StepPath(v, pos[0], path), pos[1..])
  }

  function Below(i: nat, positions: seq<Position>): (r: seq<Position>)
    ensures |r| == |positions| && forall j :: 0 <= j < |r| ==> r[j] == [i] + positions[j]
  {
    seq(|positions|, j requires 0 <= j < |positions| => [i] + positions[j])
  }

  /** The redacted positions at or below child `i`. */
  function PositionsAt(v: Value, i: nat): seq<Position>
    requires i < Arity(v)
    decreases v, Arity(v) - i, 0
  {
    if Masked(v, i) then [[i]] else Below(i, PositionsFrom(Child(v, i), 0))
  }

  /** The redacted positions among the children from `i` on, in traversal order. */
  function PositionsFrom(v: Value, i: nat): seq<Position>
    requires i <= Arity(v)
    decreases v, Arity(v) - i, 1
  {
    if i == Arity(v) then [] else PositionsAt(v, i) + PositionsFrom(v, i + 1)
  }

  function Positions(v: Value): seq<Position> {
    PositionsFrom(v, 0)
  }

  /** What child `i` adds to the list that redaction returns. */
  function FieldsAt(v: Value, i: nat, path: string): seq<string>
    requires i < Arity(v)
    decreases v, Arity(v) - i, 0
  {
    if Masked(v, i) then [StepPath(v, i, path)] else FieldsFrom(Child(v, i), 0, StepPath(v, i, path))
  }

  /** The list that redaction returns, for the children from `i` on. */
  function FieldsFrom(v: Value, i: nat, path: string): seq<string>
    requires i <= Arity(v)
    decreases v, Arity(v) - i, 1
  {
    if i == Arity(v) then [] else FieldsAt(v, i, path) + FieldsFrom(v, i + 1, path)
  }

  function RedactedFields(v: Value, path: string): seq<string> {
    FieldsFrom(v, 0, path)
  }

  ghost predicate TextsOf(fields: seq<string>, v: Value, path: string, positions: seq<Position>) {
    |fields| == |positions| && forall j :: 0 <= j < |fields| ==> fields[j] == PathText(v, path, positions[j])
  }

  lemma {:induction false} FieldsFromArePositions(v: Value, i: nat, path: string)
    requires i <= Arity(v)
    ensures TextsOf(FieldsFrom(v, i, path), v, path, PositionsFrom(v, i))
    decreases v, Arity(v) - i
  {
    if i < Arity(v) {
      FieldsFromArePositions(v, i + 1, path);
      hide Sensitive, StepPath;
      if Masked(v, i) {
        assert PathText(v, path, [i]) == StepPath(v, i, path);
      } else {
        var inner := PositionsFrom(Child(v, i), 0);
        FieldsFromArePositions(Child(v, i), 0, StepPath(v, i, path));
        TextsBelow(v, i, path, FieldsFrom(Child(v, i), 0, StepPath(v, i, path)), inner);
      }
      TextsAppend(v, path, FieldsAt(v, i, path), PositionsAt(v, i), FieldsFrom(v, i + 1, path),
                  PositionsFrom(v, i + 1));
    }
  }

  lemma TextsBelow(v: Value, i: nat, path: string, fields: seq<string>, inner: seq<Position>)
    requires i < Arity(v) && TextsOf(fields, Child(v, i), StepPath(v, i, path), inner)
    ensures TextsOf(fields, v, path, Below(i, inner))
  {
    forall j | 0 <= j < |inner| ensures fields[j] == PathText(v, path, [i] + inner[j]) {
      assert ([i] + inner[j])[1..] == inner[j];
    }
  }

  lemma TextsAppend(
    v: Value, path: string, fields: seq<string>, positions: seq<Position>, fields': seq<string>,
    positions': seq<Position>)
    requires TextsOf(fields, v, path, positions) && TextsOf(fields', v, path, positions')
    ensures TextsOf(fields + fields', v, path, positions + positions')
  {
  }

  lemma {:induction false} PositionsFromMembers(v: Value, i: nat, pos: Position)
    requires i <= Arity(v)
    ensures pos in PositionsFrom(v, i) <==> pos != [] && i <= pos[0] && Outermost(v, pos)
    decreases v, Arity(v) - i
  {
    hide Sensitive;
    if i < Arity(v) {
      PositionsFromMembers(v, i + 1, pos);
      if !Masked(v, i) && pos != [] {
        PositionsFromMembers(Child(v, i), 0, pos[1..]);
      }
      PositionsAtMembers(v, i, pos);
    }
  }

  lemma PositionsAtMembers(v: Value, i: nat, pos: Position)
    requires i < Arity(v)
    requires !Masked(v, i) && pos != [] ==>
      (pos[1..] in PositionsFrom(Child(v, i), 0) <==> Outermost(Child(v, i), pos[1..]))
    ensures pos in PositionsAt(v, i) <==> pos != [] && pos[0] == i && Outermost(v, pos)
  {
    if !Masked(v, i) {
      if pos != [] && pos[0] == i {
        BelowMembers(i, PositionsFrom(Child(v, i), 0), pos);
      }
    } else {
      assert pos in [[i]] <==> pos == [i];
    }
  }

  lemma BelowMembers(i: nat, inner: seq<Position>, pos: Position)
    requires pos != [] && pos[0] == i
    ensures pos in Below(i, inner) <==> pos[1..] in inner
  {
    if pos in Below(i, inner) {
      var j :| 0 <= j < |inner| && Below(i, inner)[j] == pos;
      assert pos[1..] == inner[j];
    }
    if pos[1..] in inner {
      var j :| 0 <= j < |inner| && inner[j] == pos[1..];
      assert Below(i, inner)[j] == pos;
    }
  }

  /** Document order: the order in which a traversal reaches the positions. */
  predicate Before(p: Position, q: Position) {
    q != [] && (p == [] || p[0] < q[0] || (p[0] == q[0] && Before(p[1..], q[1..])))
  }

  ghost predicate InOrder(positions: seq<Position>) {
    forall a, b :: 0 <= a < b < |positions| ==> Before(positions[a], positions[b])
  }

  lemma {:induction false} PositionsFromInOrder(v: Value, i: nat)
    requires i <= Arity(v)
    ensures InOrder(PositionsFrom(v, i))
    decreases v, Arity(v) - i
  {
    if i < Arity(v) {
      var rest := PositionsFrom(v, i + 1);
      PositionsFromInOrder(v, i + 1);
      forall p | p in rest ensures p != [] && p[0] > i {
        PositionsFromMembers(v, i + 1, p);
      }
      if !Masked(v, i) {
        var inner := PositionsFrom(Child(v, i), 0);
        PositionsFromInOrder(Child(v, i), 0);
        BelowInOrder(i, inner);
        PartsInOrder(i, Below(i, inner), rest);
      } else {
        PartsInOrder(i, [[i]], rest);
      }
    }
  }

  lemma BelowInOrder(i: nat, inner: seq<Position>)
    requires InOrder(inner)
    ensures InOrder(Below(i, inner))
  {
    forall a, b | 0 <= a < b < |inner| ensures Before(Below(i, inner)[a], Below(i, inner)[b]) {
      assert ([i] + inner[a])[1..] == inner[a] && ([i] + inner[b])[1..] == inner[b];
    }
  }

  lemma PartsInOrder(i: nat, first: seq<Position>, rest: seq<Position>)
    requires InOrder(first) && InOrder(rest)
    requires forall j :: 0 <= j < |first| ==> first[j] != [] && first[j][0] == i
    requires forall p :: p in rest ==> p != [] && p[0] > i
    ensures InOrder(first + rest)
  {
  }

  /**
    The returned list names, in document order, exactly the positions whose last key is the
    first sensitive one on the way.
  */
  lemma RedactedFieldsAreExact(v: Value, path: string)
    ensures TextsOf(RedactedFields(v, path), v, path, Positions(v))
    ensures InOrder(Positions(v))
    ensures forall pos :: pos in Positions(v) <==> Outermost(v, pos)
  {
    FieldsFromArePositions(v, 0, path);
    PositionsFromInOrder(v, 0);
    forall pos ensures pos in Positions(v) <==> Outermost(v, pos) {
      PositionsFromMembers(v, 0, pos);
    }
  }

  // ---------------------------------------------------------------------------
  // When the text of a path identifies the position
  // ---------------------------------------------------------------------------

  /** The keys of a dictionary are distinct, at every depth. */
  predicate Dictionary(v: Value) {
    match v
    case Scalar(_) => true
    case Obj(fields) =>
      && (forall i, j :: 0 <= i < j < |fields| ==> fields[i].key != fields[j].key)
      && (forall i :: 0 <= i < |fields| ==> Dictionary(fields[i].value))
    case Arr(items) => forall i :: 0 <= i < |items| ==> Dictionary(items[i])
  }

  predicate AllKeys(v: Value, ok: string -> bool) {
    match v
    case Scalar(_) => true
    case Obj(fields) => forall i :: 0 <= i < |fields| ==> ok(fields[i].key) && AllKeys(fields[i].value, ok)
    case Arr(items) => forall i :: 0 <= i < |items| ==> AllKeys(items[i], ok)
  }

  predicate NonEmpty(key: string) {
    key != ""
  }

  predicate Dotless(key: string) {
    '.' !in key
  }

  predicate Bracketless(key: string) {
    '[' !in key
  }

  predicate PlainKeys(v: Value) {
    AllKeys(v, NonEmpty) && AllKeys(v, Dotless) && AllKeys(v, Bracketless)
  }

  /** The text that a position adds to a path that is not empty. */
  function Suffix(v: Value, pos: Position): string
    decreases pos
  {
    if pos == [] || pos[0] >= Arity(v) then ""
    else
      (if v.Obj? then "." + v.fields[pos[0]].key else "[" + Decimal(pos[0]) + "]") + Suffix(Child(v, pos[0]), pos[1..])
  }

  lemma {:induction false} PathEndsInSuffix(v: Value, path: string, pos: Position)
    requires path != ""
    ensures PathText(v, path, pos) == path + Suffix(v, pos)
    decreases pos
  {
    if pos != [] && pos[0] < Arity(v) {
      var step := if v.Obj? then "." + v.fields[pos[0]].key else "[" + Decimal(pos[0]) + "]";
      assert StepPath(v, pos[0], path) == path + step;
      PathEndsInSuffix(Child(v, pos[0]), path + step, pos[1..]);
      Regroup(path, step, Suffix(Child(v, pos[0]), pos[1..]));
    }
  }

  /** What follows a key: nothing, or the start of the next step. */
  predicate AfterKey(s: string) {
    s == "" || s[0] == '.' || s[0] == '['
  }

  lemma SuffixFollowsKey(v: Value, pos: Position)
    ensures AfterKey(Suffix(v, pos))
  {
  }

  lemma KeysSplit(k: string, r: string, k': string, r': string)
    requires Dotless(k) && Bracketless(k) && Dotless(k') && Bracketless(k') && AfterKey(r) && AfterKey(r')
    requires k + r == k' + r'
    ensures k == k' && r == r'
  {
    var s, s' := k + r, k' + r';
    assert forall i :: 0 <= i < |k| ==> s[i] == k[i] && k[i] in k;
    assert forall i :: 0 <= i < |k'| ==> s'[i] == k'[i] && k'[i] in k';
    assert r != "" ==> s[|k|] == r[0];
    assert r' != "" ==> s'[|k'|] == r'[0];
    assert |k| == |k'|;
    assert s[..|k|] == k && s'[..|k|] == k' && s[|k|..] == r && s'[|k|..] == r';
  }

  lemma {:induction false} DecimalDigits(n: nat)
    ensures Decimal(n) != "" && forall c :: c in Decimal(n) ==> '0' <= c <= '9'
  {
    if n >= 10 {
      DecimalDigits(n / 10);
    }
  }

  lemma {:induction false} DecimalIsInjective(m: nat, n: nat)
    requires Decimal(m) == Decimal(n)
    ensures m == n
  {
    var s, t := Decimal(m), Decimal(n);
    assert s[|s| - 1] == (48 + m % 10) as char && t[|t| - 1] == (48 + n % 10) as char;
    assert s[..|s| - 1] == if m < 10 then "" else Decimal(m / 10);
    assert t[..|t| - 1] == if n < 10 then "" else Decimal(n / 10);
    if m >= 10 {
      DecimalDigits(m / 10);
    }
    if n >= 10 {
      DecimalDigits(n / 10);
    }
    if m >= 10 && n >= 10 {
      DecimalIsInjective(m / 10, n / 10);
    }
  }

  lemma IndicesSplit(i: nat, r: string, i': nat, r': string)
    requires "[" + Decimal(i) + "]" + r == "[" + Decimal(i') + "]" + r'
    ensures i == i' && r == r'
  {
    DecimalDigits(i);
    DecimalDigits(i');
    var d, d' := "[" + Decimal(i), "[" + Decimal(i');
    assert ']' !in d && ']' !in d';
    IndexOfIs(d, ']', r);
    IndexOfIs(d', ']', r');
    hide Decimal;
    var s := d + "]" + r;
    assert s[..|d|] == d && s[|d| + 1..] == r && s[..|d'|] == d' && s[|d'| + 1..] == r';
    assert d[1..] == Decimal(i) && d'[1..] == Decimal(i');
    DecimalIsInjective(i, i');
  }

  lemma IndexStep(v: Value, i: nat)
    requires i < Arity(v) && !v.Obj?
    ensures StepPath(v, i, "") == "[" + Decimal(i) + "]"
  {
    hide Decimal;
  }

  /** The first step of two positions with the same text, below any path: the same child. */
  lemma SameFirstStep(v: Value, i: nat, r: string, j: nat, r': string)
    requires Dictionary(v) && PlainKeys(v) && i < Arity(v) && j < Arity(v) && AfterKey(r) && AfterKey(r')
    requires StepPath(v, i, "") + r == StepPath(v, j, "") + r'
    ensures i == j && r == r'
  {
    if v.Obj? {
      assert Dotless(v.fields[i].key) && Bracketless(v.fields[i].key);
      assert Dotless(v.fields[j].key) && Bracketless(v.fields[j].key);
      KeysSplit(v.fields[i].key, r, v.fields[j].key, r');
    } else {
      IndexStep(v, i);
      IndexStep(v, j);
      IndicesSplit(i, r, j, r');
    }
  }

  lemma SuffixStep(v: Value, pos: Position)
    requires pos != [] && pos[0] < Arity(v)
    ensures var rest := StepPath(v, pos[0], "") + Suffix(Child(v, pos[0]), pos[1..]);
      Suffix(v, pos) == if v.Obj? then "." + rest else rest
  {
    var step := if v.Obj? then "." + v.fields[pos[0]].key else "[" + Decimal(pos[0]) + "]";
    assert Suffix(v, pos) == step + Suffix(Child(v, pos[0]), pos[1..]);
    hide Suffix, Decimal;
    if v.Obj? {
      Regroup(".", v.fields[pos[0]].key, Suffix(Child(v, pos[0]), pos[1..]));
    } else {
      IndexStep(v, pos[0]);
    }
  }

  lemma ChildIsPlain(v: Value, i: nat)
    requires Dictionary(v) && PlainKeys(v) && i < Arity(v)
    ensures Dictionary(Child(v, i)) && PlainKeys(Child(v, i))
  {
  }

  lemma {:induction false} SuffixIsInjective(v: Value, p: Position, q: Position)
    requires Dictionary(v) && PlainKeys(v) && At(v, p).Some? && At(v, q).Some?
    requires Suffix(v, p) == Suffix(v, q)
    ensures p == q
    decreases p
  {
    if p != [] && q != [] {
      SuffixStep(v, p);
      SuffixStep(v, q);
      var r, r' := Suffix(Child(v, p[0]), p[1..]), Suffix(Child(v, q[0]), q[1..]);
      SuffixFollowsKey(Child(v, p[0]), p[1..]);
      SuffixFollowsKey(Child(v, q[0]), q[1..]);
      ChildIsPlain(v, p[0]);
      hide Suffix, Dictionary, PlainKeys, StepPath;
      if v.Obj? {
        HeadAndTail('.', StepPath(v, p[0], "") + r);
        HeadAndTail('.', StepPath(v, q[0], "") + r');
      }
      SameFirstStep(v, p[0], r, q[0], r');
      SuffixIsInjective(Child(v, p[0]), p[1..], q[1..]);
      assert p == [p[0]] + p[1..] && q == [q[0]] + q[1..];
    }
  }

  /** From the root, where the path is empty, the first key is written without a dot. */
  lemma RootPath(v: Value, pos: Position)
    requires AllKeys(v, NonEmpty) && pos != [] && pos[0] < Arity(v)
    ensures StepPath(v, pos[0], "") != ""
    ensures PathText(v, "", pos) == StepPath(v, pos[0], "") + Suffix(Child(v, pos[0]), pos[1..])
  {
    assert v.Obj? ==> NonEmpty(v.fields[pos[0]].key);
    PathEndsInSuffix(Child(v, pos[0]), StepPath(v, pos[0], ""), pos[1..]);
  }

  /** When every key is non-empty and free of '.' and '[', the text of a path names one position. */
  lemma PathTextsAreUnique(v: Value, p: Position, q: Position)
    requires Dictionary(v) && PlainKeys(v) && At(v, p).Some? && At(v, q).Some?
    requires PathText(v, "", p) == PathText(v, "", q)
    ensures p == q
  {
    if p != [] {
      RootPath(v, p);
    }
    if q != [] {
      RootPath(v, q);
    }
    if p != [] && q != [] {
      SuffixFollowsKey(Child(v, p[0]), p[1..]);
      SuffixFollowsKey(Child(v, q[0]), q[1..]);
      ChildIsPlain(v, p[0]);
      hide Suffix, Dictionary, PlainKeys, StepPath, PathText;
      SameFirstStep(v, p[0], Suffix(Child(v, p[0]), p[1..]), q[0], Suffix(Child(v, q[0]), q[1..]));
      SuffixIsInjective(Child(v, p[0]), p[1..], q[1..]);
      assert p == [p[0]] + p[1..] && q == [q[0]] + q[1..];
    }
  }

  ghost predicate SameText(v: Value, p: Position, q: Position) {
    p != q && Outermost(v, p) && Outermost(v, q) && PathText(v, "", p) == PathText(v, "", q)
  }

  /** The returned list holds the text twice. */
  ghost predicate ListedTwice(v: Value, text: string) {
    exists i, j :: 0 <= i < j < |RedactedFields(v, "")|
      && RedactedFields(v, "")[i] == text && RedactedFields(v, "")[j] == text
  }

  /** The list is ambiguous exactly when two redacted positions have one text. */
  lemma ListedTwiceIff(v: Value, text: string)
    ensures ListedTwice(v, text) <==> exists p, q :: SameText(v, p, q) && PathText(v, "", p) == text
  {
    var (positions, fields) := (Positions(v), RedactedFields(v, ""));
    RedactedFieldsAreExact(v, "");
    hide PositionsFrom, FieldsFrom, Outermost, PathText;
    if ListedTwice(v, text) {
      var i, j :| 0 <= i < j < |fields| && fields[i] == text && fields[j] == text;
      BeforeIsNotEqual(positions[i]);
      assert positions[i] in positions && positions[j] in positions;
      assert SameText(v, positions[i], positions[j]);
    }
    if p, q :| SameText(v, p, q) && PathText(v, "", p) == text {
      var i :| 0 <= i < |positions| && positions[i] == p;
      var j :| 0 <= j < |positions| && positions[j] == q;
      assert fields[i] == text && fields[j] == text;
    }
  }

  lemma {:induction false} BeforeIsNotEqual(p: Position)
    ensures !Before(p, p)
  {
    if p != [] {
      BeforeIsNotEqual(p[1..]);
    }
  }

  lemma {:induction false} OutermostExists(v: Value, pos: Position)
    requires Outermost(v, pos)
    ensures At(v, pos).Some?
    decreases pos
  {
    hide Sensitive;
    if !Masked(v, pos[0]) {
      OutermostExists(Child(v, pos[0]), pos[1..]);
    }
  }

  /** With such keys the list of redacted fields names every redacted position once. */
  lemma PlainListsAreUnambiguous(v: Value, text: string)
    requires Dictionary(v) && PlainKeys(v)
    ensures !ListedTwice(v, text)
  {
    ListedTwiceIff(v, text);
    hide ListedTwice, PathText, Outermost, Dictionary, PlainKeys;
    forall p, q | Outermost(v, p) && Outermost(v, q) && PathText(v, "", p) == PathText(v, "", q) ensures p == q {
      OutermostExists(v, p);
      OutermostExists(v, q);
      PathTextsAreUnique(v, p, q);
    }
  }

  lemma {:induction false} LowerSplits(a: string, b: string)
    ensures Lower(a + b) == Lower(a) + Lower(b)
  {
    if a == "" {
      assert a + b == b;
    } else {
      assert (a + b)[0] == a[0] && (a + b)[1..] == a[1..] + b;
      LowerSplits(a[1..], b);
    }
  }

  /** A key that reads as it is written. */
  predicate Written(key: string) {
    forall i :: 0 <= i < |key| ==> key[i] != '-' && LowerChar(key[i]) == [key[i]] && SearchedChar(key[i]) == key[i]
  }

  lemma {:induction false} WrittenKeysStay(key: string)
    requires Written(key)
    ensures Normalized(key) == key && Searched(key) == key
  {
    if key != "" {
      WrittenKeysStay(key[1..]);
      assert key == [key[0]] + key[1..];
      assert Replace(key, '-', "_") == [key[0]] + Replace(key[1..], '-', "_");
      HeadAndTail(key[0], Replace(key[1..], '-', "_"));
    }
  }

  lemma TokenNormalized(prefix: string)
    ensures Normalized(prefix + "token") == Normalized(prefix) + "token" && Searched("token") == "token"
  {
    assert Written("token");
    WrittenKeysStay("token");
    ReplaceSplits(prefix, "token", '-', "_");
    LowerSplits(Replace(prefix, '-', "_"), Replace("token", '-', "_"));
  }

  lemma SearchedSplits(a: string, b: string)
    ensures Searched(a + b) == Searched(a) + Searched(b)
  {
  }

  lemma EndsInToken(s: string)
    ensures !Exempt(s + "token") && Matches(s + "token")
  {
    var t := s + "token";
    assert t[|t| - 1] == 'n';
    assert t[|s|..] == PATTERNS[2];
    assert StartsWith(t[|s|..], PATTERNS[2]);
    assert Contains(t, PATTERNS[2]);
  }

  /** Whatever ends in "token" is sensitive. */
  lemma TokenKeysAreSensitive(prefix: string)
    ensures Sensitive(prefix + "token")
  {
    TokenNormalized(prefix);
    hide Normalized, Searched, Exempt, Matches;
    SearchedSplits(Normalized(prefix), "token");
    EndsInToken(Normalized(prefix));
    EndsInToken(Searched(Normalized(prefix)));
  }

  lemma EmptyKeyIsNotSensitive()
    ensures !Sensitive("")
  {
    assert Normalized("") == "";
  }

  /** Every secret stands under a `token` of its own, at two positions with one text. */
  ghost predicate Ambiguous(v: Value, p: Position, q: Position, text: string) {
    Dictionary(v) && SameText(v, p, q) && PathText(v, "", p) == text && ListedTwice(v, text)
  }

  lemma IsAmbiguous(v: Value, p: Position, q: Position, text: string)
    requires Dictionary(v) && p != q && Outermost(v, p) && Outermost(v, q)
    requires PathText(v, "", p) == text && PathText(v, "", q) == text
    ensures Ambiguous(v, p, q, text)
  {
    ListedTwiceIff(v, text);
    hide ListedTwice, PathText, Outermost;
    assert SameText(v, p, q);
  }

  /** `{"token": secret}` as a child. */
  function Holder(secret: Value): Value {
    Obj([Field("token", secret)])
  }

  lemma HolderText(secret: Value, path: string)
    ensures Outermost(Holder(secret), [0])
    ensures PathText(Holder(secret), path, [0]) == if path == "" then "token" else path + "." + "token"
  {
    TokenKeysAreSensitive("");
    hide Sensitive;
    var v := Holder(secret);
    assert "" + "token" == "token";
    assert Masked(v, 0) && StepPath(v, 0, path) == if path == "" then "token" else path + "." + "token";
    hide StepPath;
    assert [0][1..] == [];
  }

  lemma ChildText(v: Value, i: nat, path: string, pos: Position)
    requires i < Arity(v) && !Masked(v, i)
    ensures Outermost(v, [i] + pos) == Outermost(Child(v, i), pos)
    ensures PathText(v, path, [i] + pos) == PathText(Child(v, i), StepPath(v, i, path), pos)
  {
    assert ([i] + pos)[1..] == pos;
    hide Sensitive;
  }

  lemma HolderKeys(secret: Value)
    requires secret.Scalar?
    ensures Dictionary(Holder(secret)) && PlainKeys(Holder(secret))
  {
    assert NonEmpty("token") && Dotless("token") && Bracketless("token");
  }

  lemma TwoFields(v: Value)
    requires v.Obj? && |v.fields| == 2 && v.fields[0].key != v.fields[1].key
    requires Dictionary(v.fields[0].value) && Dictionary(v.fields[1].value)
    requires PlainKeys(v.fields[0].value) && PlainKeys(v.fields[1].value)
    ensures Dictionary(v)
    ensures NonEmpty(v.fields[0].key) && NonEmpty(v.fields[1].key) ==> AllKeys(v, NonEmpty)
    ensures Dotless(v.fields[0].key) && Dotless(v.fields[1].key) ==> AllKeys(v, Dotless)
    ensures Bracketless(v.fields[0].key) && Bracketless(v.fields[1].key) ==> AllKeys(v, Bracketless)
  {
    hide NonEmpty, Dotless, Bracketless;
  }

  /** A sensitive key beside a key that is not and that holds a token of the same text. */
  lemma TokenBeside(v: Value, b: Value, text: string)
    requires Dictionary(v) && v.Obj? && |v.fields| == 2 && v.fields[0].key == text && Sensitive(text)
    requires v.fields[1].value == Holder(b) && !Sensitive(v.fields[1].key)
    requires text == if v.fields[1].key == "" then "token" else v.fields[1].key + "." + "token"
    ensures Ambiguous(v, [0], [1, 0], text)
  {
    HolderText(b, v.fields[1].key);
    hide Sensitive, Dictionary, Ambiguous, Holder;
    ChildText(v, 1, "", [0]);
    assert [1] + [0] == [1, 0];
    assert PathText(v, "", [0]) == text;
    IsAmbiguous(v, [0], [1, 0], text);
  }

  /** None of the three conditions can be dropped. Below any key `k` that is not sensitive a dot will do. */
  lemma DottedKeysCollide(k: string, a: Value, b: Value)
    requires k != "" && !Sensitive(k) && a.Scalar? && b.Scalar?
    ensures var v := Obj([Field(k + "." + "token", a), Field(k, Holder(b))]);
      && AllKeys(v, NonEmpty) && (Bracketless(k) ==> AllKeys(v, Bracketless))
      && Ambiguous(v, [0], [1, 0], k + "." + "token")
  {
    var v := Obj([Field(k + "." + "token", a), Field(k, Holder(b))]);
    HolderKeys(b);
    TokenKeysAreSensitive(k + ".");
    hide Sensitive, Ambiguous, Holder;
    TwoFields(v);
    hide Dictionary, AllKeys;
    TokenBeside(v, b, k + "." + "token");
  }

  /** An empty key too: its children are named as if they stood at the root. */
  lemma EmptyKeysCollide(a: Value, b: Value)
    requires a.Scalar? && b.Scalar?
    ensures var v := Obj([Field("token", a), Field("", Holder(b))]);
      AllKeys(v, Dotless) && AllKeys(v, Bracketless) && Ambiguous(v, [0], [1, 0], "token")
  {
    var v := Obj([Field("token", a), Field("", Holder(b))]);
    HolderKeys(b);
    TokenKeysAreSensitive("");
    EmptyKeyIsNotSensitive();
    assert "" + "token" == "token";
    hide Sensitive, Ambiguous, Holder;
    TwoFields(v);
    hide Dictionary, AllKeys;
    TokenBeside(v, b, "token");
  }

  /** And a bracket: the key `k[0]` beside a list under `k`. */
  lemma BracketedKeysCollide(k: string, a: Value, b: Value)
    requires k != "" && !Sensitive(k) && !Sensitive(k + "[" + Decimal(0) + "]") && a.Scalar? && b.Scalar?
    ensures var first := k + "[" + Decimal(0) + "]";
      var v := Obj([Field(first, Holder(a)), Field(k, Arr([Holder(b)]))]);
      && AllKeys(v, NonEmpty) && (Dotless(k) ==> AllKeys(v, Dotless))
      && Ambiguous(v, [0, 0], [1, 0, 0], first + "." + "token")
  {
    var (first, list) := (k + "[" + Decimal(0) + "]", Arr([Holder(b)]));
    var v := Obj([Field(first, Holder(a)), Field(k, list)]);
    BracketedKeys(v, first, k, a, b);
    HolderText(a, first);
    HolderText(b, first);
    hide Sensitive, Ambiguous, Holder, Decimal, Dictionary, AllKeys;
    ChildText(v, 0, "", [0]);
    ChildText(v, 1, "", [0, 0]);
    ChildText(list, 0, k, [0]);
    assert [0] + [0] == [0, 0] && [1] + [0, 0] == [1, 0, 0];
    IsAmbiguous(v, [0, 0], [1, 0, 0], first + "." + "token");
  }

  lemma BracketedKeys(v: Value, first: string, k: string, a: Value, b: Value)
    requires k != "" && first == k + "[" + Decimal(0) + "]" && a.Scalar? && b.Scalar?
    requires v == Obj([Field(first, Holder(a)), Field(k, Arr([Holder(b)]))])
    ensures Dictionary(v) && AllKeys(v, NonEmpty) && (Dotless(k) ==> AllKeys(v, Dotless))
  {
    DecimalDigits(0);
    HolderKeys(a);
    HolderKeys(b);
    hide Holder, Decimal;
    var list := Arr([Holder(b)]);
    assert Dictionary(list) && PlainKeys(list);
    TwoFields(v);
  }

  // ---------------------------------------------------------------------------
  // A second pass
  // ---------------------------------------------------------------------------

  lemma {:induction false} RedactIsIdempotent(v: Value)
    ensures Redact(Redact(v)) == Redact(v)
  {
    RedactionTellsNothing(Redact(v), v);
    RedactedAgrees(v);
  }

  lemma {:induction false} RedactedAgrees(v: Value)
    ensures AgreeOutside(Redact(v), v)
  {
    RedactHead(v);
    match v
    case Scalar(_) =>
    case Obj(fields) =>
      forall i | 0 <= i < |fields| && !Sensitive(fields[i].key)
        ensures AgreeOutside(Redact(v).fields[i].value, fields[i].value)
      {
        RedactedAgrees(fields[i].value);
      }
    case Arr(items) =>
      forall i | 0 <= i < |items| ensures AgreeOutside(Redact(v).items[i], items[i]) {
        RedactedAgrees(items[i]);
      }
  }

  lemma {:induction false} FieldsFromRepeats(v: Value, i: nat, path: string)
    requires i <= Arity(v)
    ensures Arity(Redact(v)) == Arity(v)
    ensures FieldsFrom(Redact(v), i, path) == FieldsFrom(v, i, path)
    decreases v, Arity(v) - i
  {
    RedactHead(v);
    if i < Arity(v) {
      FieldsFromRepeats(v, i + 1, path);
      RedactChild(v, i);
      if v.Obj? {
        assert Redact(v).fields[i].key == v.fields[i].key;
      }
      if !Masked(v, i) {
        FieldsFromRepeats(Child(v, i), 0, StepPath(v, i, path));
      }
    }
  }

  /** Redacting what was redacted changes nothing and lists the same fields. */
  lemma SecondPassRepeats(v: Value, path: string)
    ensures Redact(Redact(v)) == Redact(v)
    ensures RedactedFields(Redact(v), path) == RedactedFields(v, path)
  {
    RedactIsIdempotent(v);
    FieldsFromRepeats(v, 0, path);
  }

  // ---------------------------------------------------------------------------
  // The loops
  // ---------------------------------------------------------------------------

  /** Assigning to a dictionary key: in place when present, otherwise at the end. */
  function Assign(fields: seq<Field>, key: string, value: Value): seq<Field> {
    if fields == [] then [Field(key, value)]
    else if fields[0].key == key then [Field(key, value)] + fields[1..]
    else [fields[0]] + Assign(fields[1..], key, value)
  }

  lemma {:induction false} AssignNewKey(fields: seq<Field>, key: string, value: Value)
    requires forall i :: 0 <= i < |fields| ==> fields[i].key != key
    ensures Assign(fields, key, value) == fields + [Field(key, value)]
  {
    if fields != [] {
      AssignNewKey(fields[1..], key, value);
    }
  }

  lemma FieldsStep(v: Value, i: nat, path: string, fields: seq<string>)
    requires i < Arity(v) && fields + FieldsFrom(v, i, path) == RedactedFields(v, path)
    ensures (fields + FieldsAt(v, i, path)) + FieldsFrom(v, i + 1, path) == RedactedFields(v, path)
  {
    assert (fields + FieldsAt(v, i, path)) + FieldsFrom(v, i + 1, path)
      == fields + (FieldsAt(v, i, path) + FieldsFrom(v, i + 1, path));
  }

  lemma AssignStep(value: Value, i: nat, item: Value)
    requires value.Obj? && Dictionary(value) && i < |value.fields|
    requires item == Redact(value).fields[i].value
    ensures Assign(Redact(value).fields[..i], value.fields[i].key, item) == Redact(value).fields[..i + 1]
  {
    hide Sensitive;
    AssignNewKey(Redact(value).fields[..i], value.fields[i].key, item);
  }

  method RedactSnapshotValue(value: Value, path: string) returns (safe: Value, fields: seq<string>)
    requires Dictionary(value)
    ensures safe == Redact(value)
    ensures fields == RedactedFields(value, path)
    decreases value, 1
  {
    if value.Obj? {
      safe, fields := RedactObject(value, path);
    } else if value.Arr? {
      safe, fields := RedactList(value, path);
    } else {
      safe, fields := value, [];
    }
  }

  method RedactObject(value: Value, path: string) returns (safe: Value, fields: seq<string>)
    requires value.Obj? && Dictionary(value)
    ensures safe == Redact(value)
    ensures fields == RedactedFields(value, path)
    decreases value, 0
  {
    hide Sensitive;
    var entries := value.fields;
    var redacted: seq<Field> := [];
    fields := [];
    for i := 0 to |entries|
      invariant redacted == Redact(value).fields[..i]
      invariant fields + FieldsFrom(value, i, path) == RedactedFields(value, path)
    {
      FieldsStep(value, i, path, fields);
      var key := entries[i].key;
      var itemPath := if path != "" then path + "." + key else key;
      var item, nested := MASK, [itemPath];
      if !Sensitive(key) {
        item, nested := RedactSnapshotValue(entries[i].value, itemPath);
      }
      assert nested == FieldsAt(value, i, path);
      AssignStep(value, i, item);
      redacted := Assign(redacted, key, item);
      fields := fields + nested;
    }
    safe := Obj(redacted);
  }

  method RedactList(value: Value, path: string) returns (safe: Value, fields: seq<string>)
    requires value.Arr? && Dictionary(value)
    ensures safe == Redact(value)
    ensures fields == RedactedFields(value, path)
    decreases value, 0
  {
    hide Sensitive;
    var items := value.items;
    var redacted: seq<Value> := [];
    fields := [];
    for i := 0 to |items|
      invariant redacted == Redact(value).items[..i]
      invariant fields + FieldsFrom(value, i, path) == RedactedFields(value, path)
    {
      FieldsStep(value, i, path, fields);
      var item, nested := RedactSnapshotValue(items[i], path + "[" + Decimal(i) + "]");
      assert nested == FieldsAt(value, i, path);
      assert Redact(value).items[..i + 1] == Redact(value).items[..i] + [Redact(items[i])];
      redacted := redacted + [item];
      fields := fields + nested;
    }
    safe := Arr(redacted);
  }
}
