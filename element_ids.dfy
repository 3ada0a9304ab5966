/**
  The text format in which the add-in keeps a selection of elements in its settings:
  `"Id123, Id456"`. `ElementIdToString` writes it, `GetIdsByString` reads it back,
  `GetStartLine` writes one id in it and `GetStartLineById` reads the first id of it.
 */
module ElementIds {
  import opened Wrappers
  import opened NetRuntime

  // ---------------------------------------------------------------------------
  // string.Split(new char[] { ',', ' ' }, StringSplitOptions.RemoveEmptyEntries)
  // ---------------------------------------------------------------------------

  /**
    The two separators, `','` and `' '`. Both are single UTF-16 code units, and no half of a
    surrogate pair equals either, so splitting on code units and on characters agree.
   */
  predicate IsSeparator(c: char): (b: bool)
    ensures b ==> IsBmp(c)
  {
    c == ',' || c == ' '
  }

  predicate NoSeparator(s: string) { forall i | 0 <= i < |s| :: !IsSeparator(s[i]) }

  /** The length of the token `s` starts with: its characters up to the first separator. */
  function TokenLength(s: string): (n: nat)
    ensures n <= |s| && NoSeparator(s[..n])
    ensures n < |s| ==> IsSeparator(s[n])
  {
    if s == [] || IsSeparator(s[0]) then 0 else 1 + TokenLength(s[1..])
  }

  /** The maximal runs of non-separator characters of `s`, in order; empty entries are dropped. */
  function Split(s: string): (tokens: seq<string>)
    ensures forall k | 0 <= k < |tokens| :: tokens[k] != [] && NoSeparator(tokens[k])
    decreases |s|
  {
    if s == [] then []
    else if IsSeparator(s[0]) then Split(s[1..])
    else
      var n := TokenLength(s);
      [s[..n]] + Split(s[n..])
  }

  /** `s` with every separator taken out. */
  function RemoveSeparators(s: string): string
  {
    if s == [] then []
    else if IsSeparator(s[0]) then RemoveSeparators(s[1..])
    else [s[0]] + RemoveSeparators(s[1..])
  }

  function Concat(tokens: seq<string>): string
  {
    if tokens == [] then [] else tokens[0] + Concat(tokens[1..])
  }

  lemma {:induction false} RemoveSeparatorsAppend(a: string, b: string)
    ensures RemoveSeparators(a + b) == RemoveSeparators(a) + RemoveSeparators(b)
  {
    if a == [] {
      assert a + b == b;
    } else {
      assert (a + b)[1..] == a[1..] + b;
      RemoveSeparatorsAppend(a[1..], b);
    }
  }

  lemma {:induction false} RemoveSeparatorsOfToken(t: string)
    requires NoSeparator(t)
    ensures RemoveSeparators(t) == t
  {
    if t != [] {
      RemoveSeparatorsOfToken(t[1..]);
    }
  }

  /** Splitting loses nothing but the separators: the tokens, put back together, are the other characters of `s`. */
  lemma {:induction false} SplitKeepsEverythingElse(s: string)
    ensures Concat(Split(s)) == RemoveSeparators(s)
    decreases |s|
  {
    if s == [] {
    } else if IsSeparator(s[0]) {
      SplitKeepsEverythingElse(s[1..]);
    } else {
      var n := TokenLength(s);
      assert s == s[..n] + s[n..];
      RemoveSeparatorsAppend(s[..n], s[n..]);
      RemoveSeparatorsOfToken(s[..n]);
      SplitKeepsEverythingElse(s[n..]);
      assert Split(s)[1..] == Split(s[n..]);
    }
  }

  lemma {:induction false} TokenLengthOfToken(t: string, rest: string)
    requires NoSeparator(t)
    requires rest == [] || IsSeparator(rest[0])
    ensures TokenLength(t + rest) == |t|
  {
    if t != [] {
      assert (t + rest)[1..] == t[1..] + rest;
      TokenLengthOfToken(t[1..], rest);
    }
  }

  /** A separator cuts the text in two: the tokens of the whole are the tokens of each side. */
  lemma {:induction false} SplitAtSeparator(a: string, c: char, b: string)
    requires IsSeparator(c)
    ensures Split(a + [c] + b) == Split(a) + Split(b)
    decreases |a|
  {
    var s := a + [c] + b;
    if a == [] {
      assert s[1..] == b;
    } else if IsSeparator(a[0]) {
      assert s[1..] == a[1..] + [c] + b;
      SplitAtSeparator(a[1..], c, b);
    } else {
      var n := TokenLength(a);
      assert a == a[..n] + a[n..];
      assert s == a[..n] + (a[n..] + [c] + b);
      TokenLengthOfToken(a[..n], a[n..] + [c] + b);
      assert s[..n] == a[..n];
      assert s[n..] == a[n..] + [c] + b;
      SplitAtSeparator(a[n..], c, b);
    }
  }

  /** Runs of separators count as one: doubling a separator changes nothing. */
  lemma SeparatorRunsCollapse(a: string, c: char, d: char, b: string)
    requires IsSeparator(c) && IsSeparator(d)
    ensures Split(a + [c, d] + b) == Split(a + [c] + b)
  {
    assert a + [c, d] + b == a + [c] + ([d] + b);
    SplitAtSeparator(a, c, [d] + b);
    SplitAtSeparator(a, c, b);
    assert ([d] + b)[1..] == b;
  }

  /** Text made only of separators has no tokens. */
  lemma {:induction false} SplitOfSeparators(s: string)
    requires forall i | 0 <= i < |s| :: IsSeparator(s[i])
    ensures Split(s) == []
  {
    if s != [] {
      SplitOfSeparators(s[1..]);
    }
  }

  lemma SplitOfToken(t: string)
    requires t != [] && NoSeparator(t)
    ensures Split(t) == [t]
  {
    TokenLengthOfToken(t, []);
    assert t + [] == t;
    assert t[|t|..] == [];
  }

  // ---------------------------------------------------------------------------
  // Writing: ElementIdToString and GetStartLine
  // ---------------------------------------------------------------------------

  /** The text of one element id: `"Id"` followed by `Int32.ToString()` of its value. */
  function IdText(id: Int32): (s: string)
    ensures |s| > 2 && s[..2] == "Id" && NoSeparator(s)
  {
    "Id" + FormatInt32(id)
  }

  /** `string.Join(", ", parts)`: the parts in order with `", "` between them, so it adds nothing but separators. */
  function Join(parts: seq<string>): (s: string)
    ensures RemoveSeparators(s) == RemoveSeparators(Concat(parts))
  {
    if parts == [] then ""
    else if |parts| == 1 then
      assert Concat(parts) == parts[0] + Concat([]);
      assert parts[0] + [] == parts[0];
      parts[0]
    else
      var rest := Join(parts[1..]);
      RemoveSeparatorsAppend(parts[0] + ", ", rest);
      RemoveSeparatorsAppend(parts[0], ", ");
      RemoveSeparatorsAppend(parts[0], Concat(parts[1..]));
      parts[0] + ", " + rest
  }

  /** The settings text for a selection: the ids in order, each as `IdText`, joined with `", "`. */
  function ElementIdToString(ids: seq<Int32>): (s: string)
    ensures s == [] <==> ids == []
  {
    Join(seq(|ids|, i requires 0 <= i < |ids| => IdText(ids[i])))
  }

  /** The tokens of the settings text are the ids' texts, one per id, in selection order. */
  lemma SelectionTokens(ids: seq<Int32>)
    ensures Split(ElementIdToString(ids)) == seq(|ids|, k requires 0 <= k < |ids| => IdText(ids[k]))
  {
    SplitJoin(seq(|ids|, k requires 0 <= k < |ids| => IdText(ids[k])));
  }

  /** Splitting undoes joining, as long as no part is empty or holds a separator. */
  lemma {:induction false} SplitJoin(parts: seq<string>)
    requires forall k | 0 <= k < |parts| :: parts[k] != [] && NoSeparator(parts[k])
    ensures Split(Join(parts)) == parts
  {
    if parts == [] {
    } else if |parts| == 1 {
      SplitOfToken(parts[0]);
    } else {
      var rest := Join(parts[1..]);
      assert parts[0] + ", " + rest == parts[0] + [','] + ([' '] + rest);
      SplitAtSeparator(parts[0], ',', [' '] + rest);
      SplitOfToken(parts[0]);
      assert ([' '] + rest)[1..] == rest;
      SplitJoin(parts[1..]);
    }
  }

  // ---------------------------------------------------------------------------
  // Reading: GetIdsByString and GetStartLineById
  // ---------------------------------------------------------------------------

  /**
    `int.Parse(token.Remove(0, 2))`. `Remove` drops the first two UTF-16 code units without
    looking at them: the first two characters when both are in the Basic Multilingual Plane,
    the first character alone when it is a surrogate pair; when the second character is a
    surrogate pair its low half is left at the front, which `int.Parse` rejects.
   */
  function ParseToken(token: string): (r: Result<Int32, Exception>)
    ensures r == Err(ArgumentOutOfRange) <==> Utf16Length(token) < 2
    ensures r.Err? ==> r.error in {ArgumentOutOfRange, Format, Overflow}
  {
    if Utf16Length(token) < 2 then Err(ArgumentOutOfRange)
    else if !IsBmp(token[0]) then ParseInt32(token[1..])
    else if !IsBmp(token[1]) then Err(Format)
    else ParseInt32(token[2..])
  }

  /** A token that starts with two characters of the Basic Multilingual Plane is read from its third character on. */
  lemma ParseBmpToken(token: string)
    requires |token| >= 2 && IsBmp(token[0]) && IsBmp(token[1])
    ensures ParseToken(token) == ParseInt32(token[2..])
  {
    assert Utf16Length(token) == 2 + Utf16Length(token[2..]) by {
      assert token[1..][1..] == token[2..];
    }
  }

  /** `tokens.Select(ParseToken).ToList()`: every token parsed in order; the first failure is thrown. */
  function ParseAll(tokens: seq<string>): (r: Result<seq<Int32>, Exception>)
    ensures r.Ok? <==> forall k | 0 <= k < |tokens| :: ParseToken(tokens[k]).Ok?
    ensures r.Ok? ==> |r.value| == |tokens| && forall k | 0 <= k < |tokens| :: ParseToken(tokens[k]) == Ok(r.value[k])
    ensures r.Err? ==> r.error in {ArgumentOutOfRange, Format, Overflow}
  {
    if tokens == [] then Ok([])
    else
      var first, rest := ParseToken(tokens[0]), ParseAll(tokens[1..]);
      if first.Err? then Err(first.error)
      else if rest.Err? then Err(rest.error)
      else Ok([first.value] + rest.value)
  }

  /** The exception thrown is the one of the first token that fails; later tokens are not looked at. */
  lemma {:induction false} ParseAllFirstError(tokens: seq<string>, k: nat)
    requires k < |tokens| && ParseToken(tokens[k]).Err?
    requires forall j | 0 <= j < k :: ParseToken(tokens[j]).Ok?
    ensures ParseAll(tokens) == Err(ParseToken(tokens[k]).error)
  {
    if k > 0 {
      var rest := tokens[1..];
      assert ParseToken(tokens[0]).Ok?;
      assert rest[k - 1] == tokens[k];
      forall j | 0 <= j < k - 1 ensures ParseToken(rest[j]).Ok? {
        assert rest[j] == tokens[j + 1];
      }
      ParseAllFirstError(rest, k - 1);
    }
  }

  /**
    `GetIdsByString`: `None` (C#'s `null`) for a null or empty text; otherwise the ids of the
    tokens in order, or the exception the first bad token throws.
   */
  function GetIdsByString(elems: Option<string>): (r: Result<Option<seq<Int32>>, Exception>)
    ensures r == Ok(None) <==> elems == None || elems == Some("")
    ensures elems.Some? && elems.value != "" ==>
              (r.Ok? <==> forall k | 0 <= k < |Split(elems.value)| :: ParseToken(Split(elems.value)[k]).Ok?)
    ensures r.Ok? && r.value.Some? ==>
              |r.value.value| == |Split(elems.value)| &&
              forall k | 0 <= k < |r.value.value| :: ParseToken(Split(elems.value)[k]) == Ok(r.value.value[k])
    ensures r.Err? ==> r.error in {ArgumentOutOfRange, Format, Overflow}
  {
    if elems == None || elems == Some("") then Ok(None)
    else
      match ParseAll(Split(elems.value))
      case Ok(ids) => Ok(Some(ids))
      case Err(e) => Err(e)
  }

  /** Reading back what `ElementIdToString` wrote gives the same ids, except that no ids read back as `null`. */
  lemma IdsRoundTrip(ids: seq<Int32>)
    ensures GetIdsByString(Some(ElementIdToString(ids))) == Ok(if ids == [] then None else Some(ids))
  {
    if ids != [] {
      var parts := seq(|ids|, i requires 0 <= i < |ids| => IdText(ids[i]));
      SelectionTokens(ids);
      forall k | 0 <= k < |ids| ensures ParseToken(parts[k]) == Ok(ids[k]) {
        assert parts[k][2..] == FormatInt32(ids[k]);
        ParseBmpToken(parts[k]);
        ParseFormat(ids[k]);
      }
      var r := ParseAll(parts);
      assert r.Ok?;
      assert r.value == ids;
    }
  }

  /**
    The two leading characters of a token are not checked: any two non-separators of the
    Basic Multilingual Plane (one UTF-16 code unit each) stand in for `Id`.
   */
  lemma PrefixNotChecked(a: char, b: char, id: Int32)
    requires !IsSeparator(a) && !IsSeparator(b) && IsBmp(a) && IsBmp(b)
    ensures GetIdsByString(Some([a, b] + FormatInt32(id))) == Ok(Some([id]))
  {
    var t := [a, b] + FormatInt32(id);
    PrefixedNumberIsToken(a, b, FormatInt32(id));
    assert t[2..] == FormatInt32(id);
    ParseBmpToken(t);
    ParseFormat(id);
    ReadSingleToken(t);
  }

  /** Text that is one token reads as that token's id, or throws its exception. */
  lemma ReadSingleToken(t: string)
    requires t != [] && NoSeparator(t)
    ensures GetIdsByString(Some(t)) == match ParseToken(t) case Ok(id) => Ok(Some([id])) case Err(e) => Err(e)
  {
    SplitOfToken(t);
    var r := ParseAll([t]);
    if r.Ok? {
      assert |r.value| == 1 && Ok(r.value[0]) == ParseToken(t);
      assert r.value == [ParseToken(t).value];
    } else {
      ParseAllFirstError([t], 0);
    }
  }

  /** Two non-separators followed by the text of a number make one token. */
  lemma PrefixedNumberIsToken(a: char, b: char, number: string)
    requires !IsSeparator(a) && !IsSeparator(b)
    requires forall i | 0 <= i < |number| :: IsDigit(number[i]) || number[i] == '-'
    ensures NoSeparator([a, b] + number)
  {
    var t := [a, b] + number;
    forall i | 2 <= i < |t| ensures !IsSeparator(t[i]) {
      assert t[i] == number[i - 2];
    }
  }

  /** For instance, `"Xy12"` reads as the single id 12. */
  lemma PrefixExample()
    ensures GetIdsByString(Some("Xy12")) == Ok(Some([12]))
  {
    TwelveText();
    PrefixNotChecked('X', 'y', 12);
    assert "Xy12" == ['X', 'y'] + "12";
  }

  /** A character outside the Basic Multilingual Plane is two code units, so it alone stands in for `Id`: `"\U{1F600}12"` reads as 12. */
  lemma AstralPrefixExample()
    ensures GetIdsByString(Some("\U{1F600}12")) == Ok(Some([12]))
  {
    var t := "\U{1F600}12";
    assert NoSeparator(t);
    TwelveText();
    assert t[1..] == FormatInt32(12);
    ParseFormat(12);
    ReadSingleToken(t);
  }

  /** The id 12 is written `"12"`. */
  lemma TwelveText()
    ensures FormatInt32(12) == "12"
  {
    assert NatDigits(1) == "1";
    assert NatDigits(12) == NatDigits(1) + [DigitChar(2)];
  }

  /** Text of separators alone is not empty, so it reads as an empty list rather than `null`. */
  lemma SeparatorsGiveEmptyList(s: string)
    requires s != [] && forall i | 0 <= i < |s| :: IsSeparator(s[i])
    ensures GetIdsByString(Some(s)) == Ok(Some([]))
  {
    SplitOfSeparators(s);
  }

  /**
    A one-character token after a valid list makes the whole read throw: `ArgumentOutOfRangeException`
    when the character is one code unit, `FormatException` when it is a surrogate pair (nothing is left to parse).
   */
  lemma ShortTokenFails(ids: seq<Int32>, c: char)
    requires !IsSeparator(c)
    ensures GetIdsByString(Some(ElementIdToString(ids) + ", " + [c])) == Err(if IsBmp(c) then ArgumentOutOfRange else Format)
  {
    var parts := seq(|ids|, i requires 0 <= i < |ids| => IdText(ids[i]));
    SplitJoin(parts);
    SplitWithTrailingToken(ElementIdToString(ids), c);
    var tokens := parts + [[c]];
    forall k | 0 <= k < |ids| ensures ParseToken(tokens[k]).Ok? {
      assert tokens[k][2..] == FormatInt32(ids[k]);
      ParseBmpToken(tokens[k]);
      ParseFormat(ids[k]);
    }
    assert tokens[|ids|] == [c] && [c][1..] == [];
    ParseAllFirstError(tokens, |ids|);
  }

  /** Appending `", c"` to any text adds the one token `c`. */
  lemma SplitWithTrailingToken(s: string, c: char)
    requires !IsSeparator(c)
    ensures Split(s + ", " + [c]) == Split(s) + [[c]]
  {
    var tail := [' '] + [c];
    assert s + ", " + [c] == s + [','] + tail;
    SplitAtSeparator(s, ',', tail);
    assert tail == [] + [' '] + [c];
    SplitAtSeparator([], ' ', [c]);
    SplitOfToken([c]);
  }

  /** A token whose remainder is a number above the 32-bit range makes the read throw `OverflowException`. */
  lemma TooLargeIdFails(n: nat)
    requires n > MaxInt32
    ensures GetIdsByString(Some("Id" + NatDigits(n))) == Err(Overflow)
  {
    var d := NatDigits(n);
    var t := ['I', 'd'] + d;
    assert t == "Id" + d;
    PrefixedNumberIsToken('I', 'd', d);
    assert t[2..] == d;
    ParseBmpToken(t);
    ParseOverflow(n);
    ReadSingleToken(t);
  }

  /** A token whose remainder is a number below the 32-bit range makes the read throw `OverflowException`. */
  lemma TooSmallIdFails(n: nat)
    requires -(n as int) < MinInt32
    ensures GetIdsByString(Some("Id-" + NatDigits(n))) == Err(Overflow)
  {
    var number := "-" + NatDigits(n);
    var t := ['I', 'd'] + number;
    assert t == "Id-" + NatDigits(n);
    PrefixedNumberIsToken('I', 'd', number);
    assert t[2..] == number;
    ParseBmpToken(t);
    ParseUnderflow(n);
    ReadSingleToken(t);
  }

  /** `GetStartLine` writes a single id as a one-element selection would be written. */
  lemma StartLineTextIsListText(id: Int32)
    ensures IdText(id) == ElementIdToString([id])
  {
  }

  /** `GetIdsByString(elemIdInSettings).First()`: the first id, or the exception `First` or the parse throws. */
  function StartLineId(elemIdInSettings: Option<string>): (r: Result<Int32, Exception>)
    ensures elemIdInSettings == None || elemIdInSettings == Some("") ==> r == Err(ArgumentNull)
    ensures r.Ok? <==> exists ids :: GetIdsByString(elemIdInSettings) == Ok(Some(ids)) && ids != []
    ensures r.Ok? ==> GetIdsByString(elemIdInSettings).value.value[0] == r.value
    ensures GetIdsByString(elemIdInSettings) == Ok(Some([])) ==> r == Err(InvalidOperation)
    ensures GetIdsByString(elemIdInSettings).Err? ==> r == Err(GetIdsByString(elemIdInSettings).error)
  {
    match GetIdsByString(elemIdInSettings)
    case Err(e) => Err(e)
    case Ok(None) => Err(ArgumentNull)
    case Ok(Some(ids)) => if ids == [] then Err(InvalidOperation) else Ok(ids[0])
  }

  /** The id `GetStartLine` saves is the id `GetStartLineById` reads back. */
  lemma StartLineRoundTrip(id: Int32)
    ensures StartLineId(Some(IdText(id))) == Ok(id)
  {
    IdsRoundTrip([id]);
  }
}
