/**
 * The texts that the bencode parser takes for a value. They are more than the encodings: numbers may have leading
 * zeros, a plus sign, other bytes before the sign, or the tail of a floating-point number, which makes them zero.
 */
module BencodeTexts {
  import opened BencodeSpec
  import opened BencodeRoundTrip

  // ----- the grammar -----

  /** The number that decimal digits stand for. */
  function DigitsNumber(text: string): nat {
    if text == "" then 0
    else
      var last := text[|text| - 1];
      10 * DigitsNumber(text[..|text| - 1]) + if IsDigit(last) then DigitVal(last) else 0
  }

  /** Decimal digits of n, maybe none for zero. */
  predicate DigitsText(text: string, n: int) {
    (forall c :: c in text ==> IsDigit(c)) && DigitsNumber(text) == n
  }

  /** Bytes that are passed over before a number. */
  predicate SkippedText(text: string) {
    forall c :: c in text ==> !IsDigit(c) && c != '+' && c != '-'
  }

  predicate SignText(text: string, sign: int) {
    ((text == "" || text == "+") && sign == 1) || (text == "-" && sign == -1)
  }

  /**
   * The beginning of a number: an 'i', skipped bytes up to j, a sign up to k, and digits of n, at least one if `any`.
   */
  predicate NumberParts(text: string, sign: int, n: int, any: bool, j: nat, k: nat) {
    && 1 <= j <= k <= |text| && text[0] == 'i' && SkippedText(text[1..j]) && SignText(text[j..k], sign)
    && DigitsText(text[k..], n) && (any <==> k < |text|)
  }

  ghost predicate NumberText(text: string, sign: int, n: int, any: bool) {
    exists j: nat, k: nat :: NumberParts(text, sign, n, any, j, k)
  }

  /** What may follow the digits: a byte of a floating-point number that is no digit, and more such bytes. */
  predicate TailText(text: string) {
    text != "" && text[0] in ".E+-" && forall c :: c in text ==> c in "0123456789.E+-"
  }

  /** A number up to m, in range, and what follows its digits. */
  ghost predicate FloatParts(text: string, sign: int, n: int, m: nat) {
    m <= |text| && n <= INT64_MAX && NumberText(text[..m], sign, n, true) && TailText(text[m..])
  }

  ghost predicate FloatText(text: string) {
    exists sign: int, n: int, m: nat :: FloatParts(text, sign, n, m)
  }

  ghost predicate SignedText(text: string, n: int) {
    exists sign: int, m: int :: NumberText(text, sign, m, true) && n == sign * m
  }

  /** A whole number: an integer, or a floating-point number, which counts as zero. */
  ghost predicate IntText(text: string, n: int) {
    text != "" && text[|text| - 1] == 'e' &&
    var number := text[..|text| - 1];
    SignedText(number, n) || (n == 0 && FloatText(number))
  }

  /** The beginning of a string: digits of its length up to k, a colon, and the first of its characters. */
  predicate StringParts(text: string, length: int, chars: string, k: nat) {
    0 < k < |text| && DigitsText(text[..k], length) && text[k] == ':' && text[k + 1..] == chars
  }

  ghost predicate StringText(text: string, length: int, chars: string) {
    exists k: nat :: StringParts(text, length, chars, k)
  }

  ghost predicate BytesText(text: string, s: string) {
    StringText(text, |s|, s)
  }

  /** The text of a value. */
  ghost predicate ValueText(text: string, v: Bencoded)
    decreases v, 0
  {
    match v
    case Int(n) => IntText(text, n)
    case Bytes(s) => BytesText(text, s)
    case Items(items) =>
      |text| > 1 && text[0] == 'l' && text[|text| - 1] == 'e' && ItemsText(text[1..|text| - 1], items)
    case Dict(entries) =>
      |text| > 1 && text[0] == 'd' && text[|text| - 1] == 'e' && EntriesText(text[1..|text| - 1], entries)
  }

  ghost predicate ItemsText(text: string, items: ItemList)
    decreases items, 0
  {
    match items
    case NoItem => text == ""
    case Item(head, tail) => exists k: nat :: k <= |text| && ValueText(text[..k], head) && ItemsText(text[k..], tail)
  }

  ghost predicate EntryText(text: string, key: string, val: Bencoded)
    decreases val, 1
  {
    exists k: nat :: k <= |text| && BytesText(text[..k], key) && ValueText(text[k..], val)
  }

  ghost predicate EntriesText(text: string, entries: EntryList)
    decreases entries, 0
  {
    match entries
    case NoEntry => text == ""
    case Entry(key, val, rest) =>
      exists k: nat :: k <= |text| && EntryText(text[..k], key, val) && EntriesText(text[k..], rest)
  }

  // ----- one more byte -----

  /** The bytes of a floating-point number. */
  lemma FloatBytes(c: char)
    ensures IsFloatChar(c) <==> c in "0123456789.E+-"
    ensures IsFloatChar(c) && !IsDigit(c) <==> c in ".E+-"
  {
    DigitBytes(c, 0);
  }

  /** The decimal digits, and what they stand for. */
  lemma DigitBytes(c: char, k: nat)
    ensures IsDigit(c) <==> c in "0123456789"
    ensures k < 10 ==> IsDigit("0123456789"[k]) && DigitVal("0123456789"[k]) == k
  {
    if IsDigit(c) {
      assert "0123456789"[c as int - '0' as int] == c;
    }
  }

  lemma DigitAdded(text: string, n: int, c: char)
    requires DigitsText(text, n) && IsDigit(c)
    ensures DigitsText(text + [c], 10 * n + DigitVal(c))
  {
    assert (text + [c])[..|text|] == text;
  }

  lemma StringDigits(text: string, length: int)
    requires text != "" && DigitsText(text, length)
    ensures StringText(text + ":", length, "")
  {
    hide DigitsText;
    var t := text + ":";
    assert t[..|text|] == text && t[|text| + 1..] == "";
    assert StringParts(t, length, "", |text|);
  }

  lemma CharacterAdded(text: string, length: int, chars: string, c: char)
    requires StringText(text, length, chars)
    ensures StringText(text + [c], length, chars + [c])
  {
    hide DigitsText;
    var k: nat :| StringParts(text, length, chars, k);
    var t := text + [c];
    assert t[..k] == text[..k] && t[k + 1..] == text[k + 1..] + [c];
    assert StringParts(t, length, chars + [c], k);
  }

  /** Before the sign: an 'i' and skipped bytes. */
  predicate BeforeSign(text: string) {
    text != "" && text[0] == 'i' && SkippedText(text[1..])
  }

  lemma SkippedAdded(text: string, c: char)
    requires BeforeSign(text) && !IsDigit(c) && c != '+' && c != '-'
    ensures BeforeSign(text + [c])
  {
    assert (text + [c])[1..] == text[1..] + [c];
  }

  lemma SignAdded(text: string, c: char)
    requires BeforeSign(text) && (c == '+' || c == '-')
    ensures NumberText(text + [c], if c == '+' then 1 else -1, 0, false)
  {
    var t, j := text + [c], |text|;
    assert t[1..j] == text[1..] && t[j..j + 1] == [c] && t[j + 1..] == "";
    assert NumberParts(t, if c == '+' then 1 else -1, 0, false, j, j + 1);
  }

  lemma NumberDigitAdded(text: string, sign: int, n: int, any: bool, c: char)
    requires NumberText(text, sign, n, any) && IsDigit(c)
    ensures NumberText(text + [c], sign, 10 * n + DigitVal(c), true)
  {
    hide SkippedText, SignText, DigitsText, IsDigit;
    var j: nat, k: nat :| NumberParts(text, sign, n, any, j, k);
    var t := text + [c];
    assert t[1..j] == text[1..j] && t[j..k] == text[j..k] && t[k..] == text[k..] + [c];
    DigitAdded(text[k..], n, c);
    assert NumberParts(t, sign, 10 * n + DigitVal(c), true, j, k);
  }

  /** A first digit without a sign. */
  lemma FirstDigitAdded(text: string, c: char)
    requires BeforeSign(text) && IsDigit(c)
    ensures NumberText(text + [c], 1, DigitVal(c), true)
  {
    var j := |text|;
    assert text[j..] == "" && text[1..j] == text[1..] && text[j..j] == "";
    assert NumberParts(text, 1, 0, false, j, j);
    NumberDigitAdded(text, 1, 0, false, c);
  }

  lemma TailBegins(text: string, sign: int, n: int, c: char)
    requires NumberText(text, sign, n, true) && n <= INT64_MAX && IsFloatChar(c) && !IsDigit(c)
    ensures FloatText(text + [c])
  {
    hide NumberText;
    FloatBytes(c);
    var t := text + [c];
    assert t[..|text|] == text && t[|text|..] == [c];
    assert FloatParts(t, sign, n, |text|);
  }

  lemma TailAdded(text: string, c: char)
    requires FloatText(text) && IsFloatChar(c)
    ensures FloatText(text + [c])
  {
    hide NumberText;
    FloatBytes(c);
    var sign: int, n: int, m: nat :| FloatParts(text, sign, n, m);
    var t := text + [c];
    assert t[..m] == text[..m] && t[m..] == text[m..] + [c];
    assert FloatParts(t, sign, n, m);
  }

  lemma NumberEnds(text: string, sign: int, n: int)
    ensures NumberText(text, sign, n, true) ==> IntText(text + "e", sign * n)
    ensures FloatText(text) ==> IntText(text + "e", 0)
  {
    hide NumberText, FloatText;
    assert (text + "e")[..|text|] == text;
  }

  // ----- one more element -----

  lemma {:induction false} ItemAdded(text: string, items: ItemList, more: string, v: Bencoded)
    requires ItemsText(text, items) && ValueText(more, v)
    ensures ItemsText(text + more, AddItem(items, v))
  {
    hide ValueText;
    var t := text + more;
    if items.NoItem? {
      assert t[..|more|] == more && t[|more|..] == "";
      assert ItemsText("", NoItem);
    } else {
      var k: nat :| k <= |text| && ValueText(text[..k], items.head) && ItemsText(text[k..], items.tail);
      ItemAdded(text[k..], items.tail, more, v);
      assert t[..k] == text[..k] && t[k..] == text[k..] + more;
    }
  }

  lemma EntryJoined(first: string, key: string, more: string, v: Bencoded)
    requires BytesText(first, key) && ValueText(more, v)
    ensures EntryText(first + more, key, v)
  {
    hide ValueText, BytesText;
    var t := first + more;
    assert t[..|first|] == first && t[|first|..] == more;
  }

  lemma {:induction false} EntryAdded(text: string, entries: EntryList, more: string, key: string, v: Bencoded)
    requires EntriesText(text, entries) && EntryText(more, key, v)
    ensures EntriesText(text + more, AddEntry(entries, key, v))
  {
    hide EntryText;
    var t := text + more;
    if entries.NoEntry? {
      assert t[..|more|] == more && t[|more|..] == "";
      assert EntriesText("", NoEntry);
    } else {
      var k: nat :| k <= |text| && EntryText(text[..k], entries.key, entries.val)
          && EntriesText(text[k..], entries.rest);
      EntryAdded(text[k..], entries.rest, more, key, v);
      assert t[..k] == text[..k] && t[k..] == text[k..] + more;
    }
  }

  /** The list with one more item at its end. */
  function AddItem(items: ItemList, v: Bencoded): ItemList {
    if items.NoItem? then Item(v, NoItem) else Item(items.head, AddItem(items.tail, v))
  }

  function AddEntry(entries: EntryList, key: string, v: Bencoded): EntryList {
    if entries.NoEntry? then Entry(key, v, NoEntry) else Entry(entries.key, entries.val, AddEntry(entries.rest, key, v))
  }
}
