/**
 * Comma-separated lists of numeric identifiers, as the bot reads them from its
 * configuration (`parse_id_list`, and the same expression for the source channels).
 *
 * A list is split at every comma, each piece has surrounding whitespace removed,
 * and the pieces that are then non-empty runs of decimal digits become numbers,
 * in their original order; every other piece is dropped without complaint.
 */
module IdList {

  import opened Collections

  /** The characters Python's `str.strip()` removes when called without arguments. */
  predicate IsSpace(c: char) {
    || c == ' '
    || '\t' <= c <= '\r'
    || '\U{1C}' <= c <= '\U{1F}'
    || c == '\U{85}' || c == '\U{A0}' || c == '\U{1680}'
    || '\U{2000}' <= c <= '\U{200A}'
    || c == '\U{2028}' || c == '\U{2029}' || c == '\U{202F}' || c == '\U{205F}' || c == '\U{3000}'
  }

  predicate AllSpace(s: string) {
    forall i :: 0 <= i < |s| ==> IsSpace(s[i])
  }

  predicate IsDigit(c: char) {
    '0' <= c <= '9'
  }

  predicate Digits(s: string) {
    forall i :: 0 <= i < |s| ==> IsDigit(s[i])
  }

  /** `str.isdigit()`: at least one character, and every character a digit. */
  predicate IsNumeral(s: string) {
    |s| > 0 && Digits(s)
  }

  predicate NoComma(s: string) {
    forall i :: 0 <= i < |s| ==> s[i] != ','
  }

  // ---------------------------------------------------------------------------
  // Splitting at commas

  /** `s.split(",")`: the pieces between commas, empty ones included; never an empty list. */
  function Split(s: string): (pieces: seq<string>)
    ensures |pieces| >= 1
    ensures forall k :: 0 <= k < |pieces| ==> NoComma(pieces[k])
  {
    if s == [] then [[]]
    else
      var rest := Split(s[1..]);
      if s[0] == ',' then [[]] + rest
      else [[s[0]] + rest[0]] + rest[1..]
  }

  /** `",".join(pieces)`. */
  function Join(pieces: seq<string>): string
    requires |pieces| >= 1
  {
    if |pieces| == 1 then pieces[0] else pieces[0] + [','] + Join(pieces[1..])
  }

  /** Joining the pieces again gives back the original text. */
  lemma {:induction false} JoinSplit(s: string)
    ensures Join(Split(s)) == s
  {
    if s != [] {
      var rest := Split(s[1..]);
      JoinSplit(s[1..]);
      if s[0] == ',' {
        assert ([[]] + rest)[1..] == rest;
      } else if |rest| > 1 {
        assert ([[s[0]] + rest[0]] + rest[1..])[1..] == rest[1..];
      }
      assert s == [s[0]] + s[1..];
    }
  }

  /** A comma splits the text into the pieces before it and the pieces after it. */
  lemma {:induction false} SplitAtComma(a: string, b: string)
    ensures Split(a + [','] + b) == Split(a) + Split(b)
  {
    if a == [] {
      assert (a + [','] + b)[1..] == b;
    } else {
      assert (a + [','] + b)[1..] == a[1..] + [','] + b;
      SplitAtComma(a[1..], b);
    }
  }

  /** Text without a comma is a single piece. */
  lemma {:induction false} SplitNoComma(a: string)
    requires NoComma(a)
    ensures Split(a) == [a]
  {
    if a != [] {
      SplitNoComma(a[1..]);
      assert a == [a[0]] + a[1..];
    }
  }

  /** Splitting a join of comma-free pieces gives back exactly those pieces. */
  lemma {:induction false} SplitJoin(pieces: seq<string>)
    requires |pieces| >= 1
    requires forall k :: 0 <= k < |pieces| ==> NoComma(pieces[k])
    ensures Split(Join(pieces)) == pieces
  {
    SplitNoComma(pieces[0]);
    if |pieces| > 1 {
      var rest := pieces[1..];
      assert Join(pieces) == pieces[0] + [','] + Join(rest);
      SplitJoin(rest);
      SplitAtComma(pieces[0], Join(rest));
      assert [pieces[0]] + rest == pieces;
    }
  }

  // ---------------------------------------------------------------------------
  // Removing surrounding whitespace

  /** The number of whitespace characters at the start of `s`. */
  function LeadingSpaces(s: string): (n: nat)
    ensures n <= |s|
    ensures AllSpace(s[..n])
    ensures n < |s| ==> !IsSpace(s[n])
  {
    if s != [] && IsSpace(s[0]) then 1 + LeadingSpaces(s[1..]) else 0
  }

  /** The number of whitespace characters at the end of `s`. */
  function TrailingSpaces(s: string): (n: nat)
    ensures n <= |s|
    ensures AllSpace(s[|s| - n..])
    ensures n < |s| ==> !IsSpace(s[|s| - n - 1])
  {
    if s != [] && IsSpace(s[|s| - 1]) then 1 + TrailingSpaces(s[..|s| - 1]) else 0
  }

  /**
   * `s.strip()`: the part of `s` left between its leading and its trailing
   * whitespace; it neither starts nor ends with whitespace.
   */
  function Strip(s: string): (r: string)
    ensures LeadingSpaces(s) + |r| <= |s|
    ensures r == s[LeadingSpaces(s)..LeadingSpaces(s) + |r|]
    ensures AllSpace(s[..LeadingSpaces(s)]) && AllSpace(s[LeadingSpaces(s) + |r|..])
    ensures r != [] ==> !IsSpace(r[0]) && !IsSpace(r[|r| - 1])
  {
    var t := s[LeadingSpaces(s)..];
    t[..|t| - TrailingSpaces(t)]
  }

  /** Whitespace around a word that neither starts nor ends with whitespace is exactly what is stripped. */
  lemma StripPadded(pad: string, w: string, pad': string)
    requires AllSpace(pad) && AllSpace(pad')
    requires w != [] && !IsSpace(w[0]) && !IsSpace(w[|w| - 1])
    ensures Strip(pad + w + pad') == w
  {
    var s := pad + w + pad';
    assert s == pad + (w + pad');
    LeadingRun(pad, w + pad');
    var t := s[|pad|..];
    assert t == w + pad';
    TrailingRun(w, pad');
    assert t[..|t| - |pad'|] == w;
  }

  /** A whitespace run followed by a non-whitespace character is exactly the leading whitespace. */
  lemma {:induction false} LeadingRun(pad: string, t: string)
    requires AllSpace(pad) && t != [] && !IsSpace(t[0])
    ensures LeadingSpaces(pad + t) == |pad|
  {
    var s := pad + t;
    if pad == [] {
      assert s == t;
    } else {
      assert s[0] == pad[0];
      assert s[1..] == pad[1..] + t;
      LeadingRun(pad[1..], t);
    }
  }

  /** A whitespace run preceded by a non-whitespace character is exactly the trailing whitespace. */
  lemma {:induction false} TrailingRun(t: string, pad: string)
    requires AllSpace(pad) && t != [] && !IsSpace(t[|t| - 1])
    ensures TrailingSpaces(t + pad) == |pad|
  {
    var s := t + pad;
    if pad == [] {
      assert s == t;
    } else {
      assert s[|s| - 1] == pad[|pad| - 1];
      assert s[..|s| - 1] == t + pad[..|pad| - 1];
      TrailingRun(t, pad[..|pad| - 1]);
    }
  }

  // ---------------------------------------------------------------------------
  // Numerals

  function DigitValue(c: char): nat
    requires IsDigit(c)
  {
    (c as int) - ('0' as int)
  }

  function DigitChar(d: nat): (c: char)
    requires d < 10
    ensures IsDigit(c) && DigitValue(c) == d
  {
    ('0' as int + d) as char
  }

  /**
   * `int(s)` for a string of decimal digits (leading zeros allowed). Python's
   * own `int` refuses strings of more than 4300 digits (`int_max_str_digits`,
   * from 3.10.7 and 3.11 on); this definition has no such bound.
   */
  function Value(s: string): (v: nat)
    requires Digits(s)
    ensures v == 0 <==> forall i :: 0 <= i < |s| ==> s[i] == '0'
  {
    if s == [] then 0
    else
      var init := s[..|s| - 1];
      assert forall i :: 0 <= i < |init| ==> init[i] == s[i];
      10 * Value(init) + DigitValue(s[|s| - 1])
  }

  /** Leading zeros do not change the value: `int("007") == int("7")`. */
  lemma {:induction false} ValueLeadingZero(s: string)
    requires Digits(s)
    ensures Digits(['0'] + s) && Value(['0'] + s) == Value(s)
  {
    if s == [] {
      assert Value(['0']) == 10 * Value([]) + DigitValue('0');
    } else {
      var init := s[..|s| - 1];
      ValueLeadingZero(init);
      assert (['0'] + s)[..|s|] == ['0'] + init;
    }
  }

  /** `str(n)`: the decimal numeral of `n`, without leading zeros. */
  function Show(n: nat): (s: string)
    ensures IsNumeral(s)
    ensures |s| > 1 ==> s[0] != '0'
  {
    if n < 10 then [DigitChar(n)] else Show(n / 10) + [DigitChar(n % 10)]
  }

  /** Reading a rendered number gives the number back. */
  lemma {:induction false} ValueShow(n: nat)
    ensures Value(Show(n)) == n
  {
    if n >= 10 {
      var s := Show(n);
      assert s[..|s| - 1] == Show(n / 10);
      ValueShow(n / 10);
    }
  }

  // ---------------------------------------------------------------------------
  // parse_id_list

  /** The identifier a single piece contributes: none, or the value of its stripped numeral. */
  function PieceIds(piece: string): seq<nat> {
    var p := Strip(piece);
    if IsNumeral(p) then [Value(p)] else []
  }

  function PiecesIds(pieces: seq<string>): (ids: seq<nat>)
    ensures |ids| <= |pieces|
    ensures forall x :: x in ids <==> exists p :: p in pieces && IsNumeral(Strip(p)) && Value(Strip(p)) == x
  {
    if pieces == [] then []
    else
      assert forall p :: p in pieces <==> p == pieces[0] || p in pieces[1..];
      PieceIds(pieces[0]) + PiecesIds(pieces[1..])
  }

  /**
   * `parse_id_list` applied to the text of one configuration value: an
   * identifier is listed iff some comma-separated piece, stripped, is a
   * numeral with that value; there are never more identifiers than pieces.
   */
  function ParseIdList(s: string): (ids: seq<nat>)
    ensures |ids| <= |Split(s)|
    ensures forall x :: x in ids <==> exists p :: p in Split(s) && IsNumeral(Strip(p)) && Value(Strip(p)) == x
  {
    PiecesIds(Split(s))
  }

  lemma {:induction false} PiecesIdsAppend(a: seq<string>, b: seq<string>)
    ensures PiecesIds(a + b) == PiecesIds(a) + PiecesIds(b)
  {
    if a == [] {
      assert a + b == b;
    } else {
      var ab := a + b;
      assert ab != [] && ab[0] == a[0] && ab[1..] == a[1..] + b;
      var first := PieceIds(a[0]);
      assert PiecesIds(ab) == first + PiecesIds(a[1..] + b);
      PiecesIdsAppend(a[1..], b);
      assert PiecesIds(a) == first + PiecesIds(a[1..]);
      AppendAssoc(first, PiecesIds(a[1..]), PiecesIds(b));
    }
  }

  /** The identifiers of a list are those before a comma followed by those after it. */
  lemma ParseAtComma(a: string, b: string)
    ensures ParseIdList(a + [','] + b) == ParseIdList(a) + ParseIdList(b)
  {
    SplitAtComma(a, b);
    PiecesIdsAppend(Split(a), Split(b));
  }

  /**
   * A text without commas yields one identifier exactly when, stripped, it is a
   * numeral; anything else (empty, signed, with inner spaces or letters) yields none.
   */
  lemma ParsePiece(piece: string)
    requires NoComma(piece)
    ensures ParseIdList(piece) == if IsNumeral(Strip(piece)) then [Value(Strip(piece))] else []
  {
    SplitNoComma(piece);
    assert PiecesIds([piece]) == PieceIds(piece) + PiecesIds([]);
  }

  /** `", ".join(map(str, ids))` and its variants with other whitespace around each number. */
  function Format(ids: seq<nat>, pad: string): string {
    if ids == [] then []
    else if |ids| == 1 then pad + Show(ids[0]) + pad
    else pad + Show(ids[0]) + pad + [','] + Format(ids[1..], pad)
  }

  /** One padded rendered number is a comma-free piece that parses to that number. */
  lemma ParsePadded(n: nat, pad: string)
    requires AllSpace(pad)
    ensures NoComma(pad + Show(n) + pad)
    ensures ParseIdList(pad + Show(n) + pad) == [n]
  {
    var w := Show(n);
    var piece := pad + w + pad;
    forall i | 0 <= i < |piece| ensures piece[i] != ',' {
      if i < |pad| {
        assert IsSpace(pad[i]);
      } else if i < |pad| + |w| {
        assert IsDigit(w[i - |pad|]);
      } else {
        assert IsSpace(pad[i - |pad| - |w|]);
      }
    }
    StripPadded(pad, w, pad);
    ValueShow(n);
    ParsePiece(piece);
  }

  /** Parsing a formatted list of identifiers gives back the list, in order. */
  lemma {:induction false} ParseFormat(ids: seq<nat>, pad: string)
    requires AllSpace(pad)
    ensures ParseIdList(Format(ids, pad)) == ids
  {
    if ids == [] {
      ParseEmpty();
    } else if |ids| == 1 {
      ParsePadded(ids[0], pad);
    } else {
      var piece := pad + Show(ids[0]) + pad;
      var rest := Format(ids[1..], pad);
      assert Format(ids, pad) == piece + [','] + rest;
      ParsePadded(ids[0], pad);
      ParseAtComma(piece, rest);
      ParseFormat(ids[1..], pad);
      assert [ids[0]] + ids[1..] == ids;
    }
  }

  /** The empty text holds no identifier. */
  lemma ParseEmpty()
    ensures ParseIdList([]) == []
  {
    assert Split([]) == [[]];
    var r := Strip([]);
    assert |r| == 0;
    assert PieceIds([]) == [];
    assert PiecesIds([[]]) == PieceIds([]) + PiecesIds([]);
  }
}
