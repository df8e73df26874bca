/**
 * PII masking of the chat gateway (`mask_pii`): three regular-expression
 * substitutions run in a fixed order, email, then phone, then card number.
 * Each pass replaces every leftmost, non-overlapping match of its pattern
 * with a fixed token, scanning the text from left to right.
 *
 * The three patterns are matched by hand, following the backtracking order
 * of Python's `re` engine: greedy repetitions try the longest run first,
 * the lazy `[ -]*?` of the card pattern tries the fewest separators first.
 *
 *   email  [a-zA-Z0-9_.+-]+@[a-zA-Z0-9-]+\.[a-zA-Z0-9-.]+
 *   phone  \+?\d[\d\s-]{7,}\d
 *   card   \b(?:\d[ -]*?){13,16}\b
 */
module PiiMask {
  import opened Wrappers

  const EmailToken: string := "[REDACTED_EMAIL]"
  const PhoneToken: string := "[REDACTED_PHONE]"
  const CardToken: string := "[REDACTED_CC]"

  // ---------------------------------------------------------------------
  // Character classes
  // ---------------------------------------------------------------------

  /** `\d`, restricted to the ASCII digits. */
  predicate IsDigit(c: char) { '0' <= c <= '9' }

  predicate IsLetter(c: char) { 'a' <= c <= 'z' || 'A' <= c <= 'Z' }

  /** `\s` on a str pattern: the characters Python's `str.isspace` accepts. */
  predicate IsSpace(c: char) {
    || c == ' '
    || '\t' <= c <= '\r'
    || '\U{1c}' <= c <= '\U{1f}'
    || c == '\U{85}' || c == '\U{a0}' || c == '\U{1680}'
    || '\U{2000}' <= c <= '\U{200a}'
    || c == '\U{2028}' || c == '\U{2029}' || c == '\U{202f}'
    || c == '\U{205f}' || c == '\U{3000}'
  }

  /** `\w`, as seen by `\b`, restricted to ASCII letters, digits and `_`. */
  predicate IsWordChar(c: char) { IsLetter(c) || IsDigit(c) || c == '_' }

  /** The character classes of the three patterns that are repeated greedily. */
  datatype CharClass =
    | LocalPart    // [a-zA-Z0-9_.+-]
    | DomainLabel  // [a-zA-Z0-9-]
    | DomainTail   // [a-zA-Z0-9-.]
    | PhoneBody    // [\d\s-]

  predicate InClass(c: char, cls: CharClass) {
    match cls
    case LocalPart => IsLetter(c) || IsDigit(c) || c == '_' || c == '.' || c == '+' || c == '-'
    case DomainLabel => IsLetter(c) || IsDigit(c) || c == '-'
    case DomainTail => IsLetter(c) || IsDigit(c) || c == '-' || c == '.'
    case PhoneBody => IsDigit(c) || IsSpace(c) || c == '-'
  }

  /** The characters a phone match may hold. */
  predicate IsPhoneChar(c: char) { c == '+' || IsDigit(c) || IsSpace(c) || c == '-' }

  /** The characters a card match may hold. */
  predicate IsCardChar(c: char) { IsDigit(c) || c == ' ' || c == '-' }

  // ---------------------------------------------------------------------
  // Matchers
  // ---------------------------------------------------------------------

  /** End of the longest run of `cls` characters starting at `i`. */
  function RunEnd(s: string, i: nat, cls: CharClass): (j: nat)
    requires i <= |s|
    ensures i <= j <= |s|
    ensures forall k :: i <= k < j ==> InClass(s[k], cls)
    ensures j < |s| ==> !InClass(s[j], cls)
    decreases |s| - i
  {
    if i < |s| && InClass(s[i], cls) then RunEnd(s, i + 1, cls) else i
  }

  /** The rightmost digit in `s[lo..hi]`, if there is one. */
  function LastDigit(s: string, lo: nat, hi: nat): (m: Option<nat>)
    requires hi <= |s|
    ensures m.Some? ==> lo <= m.value < hi && IsDigit(s[m.value])
    ensures m.Some? ==> forall k :: m.value < k < hi ==> !IsDigit(s[k])
    ensures m.None? ==> forall k :: lo <= k < hi ==> !IsDigit(s[k])
    decreases hi
  {
    if hi <= lo then None
    else if IsDigit(s[hi - 1]) then Some(hi - 1)
    else LastDigit(s, lo, hi - 1)
  }

  /**
   * The email pattern tried at `i`; the end of the match, if any. No
   * backtracking is ever useful: `@` is not a local-part character and `.`
   * is not a domain-label character, so each greedy run must stop exactly
   * where the next literal is.
   */
  function EmailMatch(s: string, i: nat): (e: Option<nat>)
    requires i <= |s|
    ensures e.Some? ==> i < e.value <= |s|
    ensures e.Some? ==> exists at :: i < at < e.value && s[at] == '@' &&
                          (forall k :: i <= k < e.value && k != at ==> InClass(s[k], LocalPart))
  {
    if i < |s| && InClass(s[i], LocalPart) then
      var at := RunEnd(s, i, LocalPart);
      if at + 1 < |s| && s[at] == '@' && InClass(s[at + 1], DomainLabel) then
        var dot := RunEnd(s, at + 1, DomainLabel);
        if dot + 1 < |s| && s[dot] == '.' && InClass(s[dot + 1], DomainTail) then
          var end := RunEnd(s, dot + 1, DomainTail);
          assert forall k :: i <= k < end && k != at ==> InClass(s[k], LocalPart) by {
            forall k | i <= k < end && k != at ensures InClass(s[k], LocalPart) {
              if k < at {
              } else if k < dot {
              } else if k > dot {
              }
            }
          }
          Some(end)
        else None
      else None
    else None
  }

  /**
   * The phone pattern tried at `i`. `\+?` takes a `+` when there is one (and
   * without it the next character would have to be a digit, which `+` is
   * not). `[\d\s-]{7,}` first takes its longest run, then gives characters
   * back until the final `\d` matches, so the match ends at the last digit
   * of that run, provided at least seven characters separate it from the
   * first digit.
   */
  function PhoneMatch(s: string, i: nat): (e: Option<nat>)
    requires i <= |s|
    ensures e.Some? ==> i + 9 <= e.value <= |s| && IsDigit(s[e.value - 1])
    ensures e.Some? ==> forall k :: i <= k < e.value ==> IsPhoneChar(s[k])
  {
    var d := if i < |s| && s[i] == '+' then i + 1 else i;
    if d < |s| && IsDigit(s[d]) then
      var runEnd := RunEnd(s, d + 1, PhoneBody);
      match LastDigit(s, d + 8, runEnd)
      case Some(m) => Some(m + 1)
      case None => None
    else None
  }

  predicate WordAt(s: string, k: int) { 0 <= k < |s| && IsWordChar(s[k]) }

  /** `\b` at position `i`. */
  predicate AtBoundary(s: string, i: int) { WordAt(s, i - 1) != WordAt(s, i) }

  /**
   * The rest of `(?:\d[ -]*?){13,16}\b` at `pos`, after `done` repetitions.
   * The repetition is greedy: another `\d[ -]*?` is tried before stopping,
   * and stopping needs at least 13 repetitions and a word boundary.
   * Success carries the end of the whole match.
   */
  function CardRepeat(s: string, pos: nat, done: nat): (e: Option<nat>)
    requires pos <= |s| && done <= 16
    ensures e.Some? ==> pos <= e.value <= |s|
    ensures e.Some? ==> forall k :: pos <= k < e.value ==> IsCardChar(s[k])
    ensures e.Some? && done < 13 ==> pos < |s| && IsDigit(s[pos])
    ensures e.Some? && done < 13 ==>
      exists m :: pos + 12 - done <= m < e.value && IsDigit(s[m])
    decreases |s| - pos, 0
  {
    var more :=
      if done < 16 && pos < |s| && IsDigit(s[pos]) then CardSeparators(s, pos + 1, done + 1)
      else None;
    if more.Some? then
      assert done + 1 == 13 ==> pos + 12 - done <= pos < more.value && IsDigit(s[pos]);
      more
    else if done >= 13 && AtBoundary(s, pos) then Some(pos)
    else None
  }

  /**
   * The lazy `[ -]*?` after the digit of repetition `done`, at `pos`: the
   * rest of the pattern is tried with no separator first, then with one
   * more separator at a time.
   */
  function CardSeparators(s: string, pos: nat, done: nat): (e: Option<nat>)
    requires pos <= |s| && 1 <= done <= 16
    ensures e.Some? ==> pos <= e.value <= |s|
    ensures e.Some? ==> forall k :: pos <= k < e.value ==> IsCardChar(s[k])
    ensures e.Some? && done < 13 ==>
      exists m :: pos + 12 - done <= m < e.value && IsDigit(s[m])
    decreases |s| - pos, 1
  {
    var rest := CardRepeat(s, pos, done);
    if rest.Some? then rest
    else if pos < |s| && (s[pos] == ' ' || s[pos] == '-') then CardSeparators(s, pos + 1, done)
    else None
  }

  /** The card pattern tried at `i`: it starts with a digit and holds a 13th digit. */
  function CardMatch(s: string, i: nat): (e: Option<nat>)
    requires i <= |s|
    ensures e.Some? ==> i < e.value <= |s| && IsDigit(s[i])
    ensures e.Some? ==> forall k :: i <= k < e.value ==> IsCardChar(s[k])
    ensures e.Some? ==> exists m :: i + 12 <= m < e.value && IsDigit(s[m])
  {
    if AtBoundary(s, i) then CardRepeat(s, i, 0) else None
  }

  // ---------------------------------------------------------------------
  // Substitution passes
  // ---------------------------------------------------------------------

  datatype Rule = Email | Phone | Card

  function MatchAt(rule: Rule, s: string, i: nat): (e: Option<nat>)
    requires i <= |s|
    ensures e.Some? ==> i < e.value <= |s|
  {
    match rule
    case Email => EmailMatch(s, i)
    case Phone => PhoneMatch(s, i)
    case Card => CardMatch(s, i)
  }

  function Token(rule: Rule): string {
    match rule
    case Email => EmailToken
    case Phone => PhoneToken
    case Card => CardToken
  }

  /** `pattern.sub(token, s)` on the part of `s` from `i` on. */
  function SubFrom(rule: Rule, s: string, i: nat): string
    requires i <= |s|
    decreases |s| - i
  {
    if i == |s| then []
    else match MatchAt(rule, s, i)
      case Some(e) => Token(rule) + SubFrom(rule, s, e)
      case None => [s[i]] + SubFrom(rule, s, i + 1)
  }

  function Sub(rule: Rule, s: string): string {
    SubFrom(rule, s, 0)
  }

  /** `mask_pii`: email, then phone, then card number. */
  function MaskPii(text: string): string {
    Sub(Card, Sub(Phone, Sub(Email, text)))
  }

  // ---------------------------------------------------------------------
  // Properties of the passes
  // ---------------------------------------------------------------------

  /** A pass that finds no match from `i` on copies the rest of the text. */
  lemma {:induction false} NoMatchIsIdentity(rule: Rule, s: string, i: nat)
    requires i <= |s|
    requires forall k :: i <= k < |s| ==> MatchAt(rule, s, k).None?
    ensures SubFrom(rule, s, i) == s[i..]
    decreases |s| - i
  {
    if i < |s| {
      NoMatchIsIdentity(rule, s, i + 1);
      assert s[i..] == [s[i]] + s[i + 1..];
    }
  }

  lemma SubFromAtMatch(rule: Rule, s: string, i: nat)
    requires i < |s| && MatchAt(rule, s, i).Some?
    ensures SubFrom(rule, s, i) == Token(rule) + SubFrom(rule, s, MatchAt(rule, s, i).value)
  {
  }

  lemma SubFromAtCopy(rule: Rule, s: string, i: nat)
    requires i < |s| && MatchAt(rule, s, i).None?
    ensures SubFrom(rule, s, i) == [s[i]] + SubFrom(rule, s, i + 1)
  {
  }

  lemma TokenOpensWithBracket(rule: Rule)
    ensures |Token(rule)| > 0 && Token(rule)[0] == '['
  {
  }

  /** The first `n` characters of `t` hold no `[`. */
  predicate BracketFree(t: string, n: nat) {
    n <= |t| && forall x :: 0 <= x < n ==> t[x] != '['
  }

  /** The first `n` characters of `t` are `s[i..i + n]`. */
  predicate CopyOf(t: string, s: string, i: nat, n: nat) {
    n <= |t| && i + n <= |s| && forall x :: 0 <= x < n ==> t[x] == s[i + x]
  }

  /**
   * A pass copies every character it does not replace, and every token
   * opens with `[`: a stretch at the start of its output that holds no `[`
   * is a copy of its input.
   */
  lemma {:induction false} CopiedPrefix(rule: Rule, s: string, i: nat, n: nat)
    requires i <= |s|
    requires BracketFree(SubFrom(rule, s, i), n)
    ensures CopyOf(SubFrom(rule, s, i), s, i, n)
    decreases |s| - i
  {
    if n > 0 {
      var out := SubFrom(rule, s, i);
      assert i < |s|;
      var first := out[0];
      TokenOpensWithBracket(rule);
      if MatchAt(rule, s, i).Some? {
        SubFromAtMatch(rule, s, i);
        assert false;
      } else {
        SubFromAtCopy(rule, s, i);
        var rest := SubFrom(rule, s, i + 1);
        BracketFreeTail(s[i], rest, n);
        CopiedPrefix(rule, s, i + 1, n - 1);
        CopiedCons(rest, s, i, n);
      }
    }
  }

  lemma BracketFreeTail(c: char, rest: string, n: nat)
    requires 0 < n && BracketFree([c] + rest, n)
    ensures BracketFree(rest, n - 1)
  {
    forall x | 0 <= x < n - 1 ensures rest[x] != '[' {
      assert rest[x] == ([c] + rest)[x + 1];
    }
  }

  lemma CopiedCons(rest: string, s: string, i: nat, n: nat)
    requires i < |s| && 0 < n && CopyOf(rest, s, i + 1, n - 1)
    ensures CopyOf([s[i]] + rest, s, i, n)
  {
    forall x | 0 <= x < n ensures ([s[i]] + rest)[x] == s[i + x] {
      if x > 0 {
        assert ([s[i]] + rest)[x] == rest[x - 1];
      }
    }
  }

  /** No rule matches text that holds no digit and no `@`. */
  lemma PlainTextHasNoMatch(rule: Rule, s: string, i: nat)
    requires i <= |s|
    requires forall k :: 0 <= k < |s| ==> !IsDigit(s[k]) && s[k] != '@'
    ensures MatchAt(rule, s, i).None?
  {
  }

  /** A pass over text with no digit and no `@` leaves it unchanged. */
  lemma PlainTextPassesThrough(rule: Rule, s: string)
    requires forall k :: 0 <= k < |s| ==> !IsDigit(s[k]) && s[k] != '@'
    ensures Sub(rule, s) == s
  {
    forall k | 0 <= k < |s| ensures MatchAt(rule, s, k).None? {
      PlainTextHasNoMatch(rule, s, k);
    }
    NoMatchIsIdentity(rule, s, 0);
  }

  /** The email pass leaves text with no `@` unchanged. */
  lemma EmailPassNeedsAt(s: string)
    requires forall k :: 0 <= k < |s| ==> s[k] != '@'
    ensures Sub(Email, s) == s
  {
    forall k | 0 <= k < |s| ensures MatchAt(Email, s, k).None? {
    }
    NoMatchIsIdentity(Email, s, 0);
  }

  /** `mask_pii` leaves text with no digit and no `@` unchanged. */
  lemma MaskPiiKeepsPlainText(s: string)
    requires forall k :: 0 <= k < |s| ==> !IsDigit(s[k]) && s[k] != '@'
    ensures MaskPii(s) == s
  {
    PlainTextPassesThrough(Email, s);
    PlainTextPassesThrough(Phone, s);
    PlainTextPassesThrough(Card, s);
  }

  /** The tokens hold no digit, `@`, whitespace or `-`. */
  lemma TokensHoldNoPatternChars(rule: Rule, k: nat)
    requires k < |Token(rule)|
    ensures !IsDigit(Token(rule)[k]) && Token(rule)[k] != '@'
    ensures !IsSpace(Token(rule)[k]) && Token(rule)[k] != '-'
    ensures !IsPhoneChar(Token(rule)[k]) && !IsCardChar(Token(rule)[k])
  {
  }

  /**
   * The phone and card passes never match inside or across a token that
   * an earlier pass put into the text: a match lies wholly before the
   * token or wholly after it.
   */
  lemma LaterRuleSkipsToken(rule: Rule, earlier: Rule, a: string, b: string, i: nat)
    requires rule != Email
    requires i <= |a + Token(earlier) + b|
    requires MatchAt(rule, a + Token(earlier) + b, i).Some?
    ensures MatchAt(rule, a + Token(earlier) + b, i).value <= |a| ||
            |a| + |Token(earlier)| <= i
  {
    TokenInText(earlier, a, b);
    MatchAvoidsRange(rule, a + Token(earlier) + b, i, |a|, |a| + |Token(earlier)|);
  }

  /** Within the text, the token's characters are none the phone pattern admits. */
  lemma TokenInText(earlier: Rule, a: string, b: string)
    ensures forall k :: |a| <= k < |a| + |Token(earlier)| ==> !IsPhoneChar((a + Token(earlier) + b)[k])
  {
    forall k | |a| <= k < |a| + |Token(earlier)|
      ensures !IsPhoneChar((a + Token(earlier) + b)[k])
    {
      assert (a + Token(earlier) + b)[k] == Token(earlier)[k - |a|];
      TokensHoldNoPatternChars(earlier, k - |a|);
    }
  }

  /** A phone or card match does not overlap a stretch of characters the phone pattern never admits. */
  lemma MatchAvoidsRange(rule: Rule, t: string, i: nat, lo: nat, hi: nat)
    requires rule != Email && i <= |t| && lo < hi <= |t|
    requires forall k :: lo <= k < hi ==> !IsPhoneChar(t[k])
    requires MatchAt(rule, t, i).Some?
    ensures MatchAt(rule, t, i).value <= lo || hi <= i
  {
    var e := MatchAt(rule, t, i).value;
    if lo < e && i < hi {
      var k := if i < lo then lo else i;
      MatchHoldsPhoneChars(rule, t, i, k);
      assert false;
    }
  }

  /** Every character of a phone or card match is one the phone pattern admits. */
  lemma MatchHoldsPhoneChars(rule: Rule, s: string, i: nat, k: nat)
    requires rule != Email && i <= |s|
    requires MatchAt(rule, s, i).Some? && i <= k < MatchAt(rule, s, i).value
    ensures IsPhoneChar(s[k])
  {
    if rule == Card {
      assert IsCardChar(s[k]);
    }
  }

  /**
   * A run of digits, whitespace and dashes of length 9 or more that starts
   * and ends with a digit, standing alone, is masked as a phone number,
   * whatever its length: a spaced 16-digit card number included.
   */
  lemma PhoneShapedRunIsMaskedAsPhone(s: string)
    requires |s| >= 9 && IsDigit(s[0]) && IsDigit(s[|s| - 1])
    requires forall k :: 0 <= k < |s| ==> InClass(s[k], PhoneBody)
    ensures MaskPii(s) == PhoneToken
  {
    EmailPassNeedsAt(s) by {
      forall k | 0 <= k < |s| ensures s[k] != '@' {
        assert InClass(s[k], PhoneBody);
      }
    }
    var runEnd := RunEnd(s, 1, PhoneBody);
    assert runEnd == |s|;
    assert LastDigit(s, 8, |s|) == Some(|s| - 1);
    assert PhoneMatch(s, 0) == Some(|s|);
    assert SubFrom(Phone, s, |s|) == [];
    assert Sub(Phone, s) == PhoneToken + SubFrom(Phone, s, |s|);
    assert Sub(Phone, Sub(Email, s)) == PhoneToken;
    PlainTextPassesThrough(Card, PhoneToken) by {
      forall k | 0 <= k < |PhoneToken| ensures !IsDigit(PhoneToken[k]) && PhoneToken[k] != '@' {
        TokensHoldNoPatternChars(Phone, k);
      }
    }
  }

  /** A spaced 16-digit card number comes out as a phone number, not as a card. */
  lemma SpacedCardNumberIsMaskedAsPhone()
    ensures MaskPii("4111 1111 1111 1111") == PhoneToken
  {
    PhoneShapedRunIsMaskedAsPhone("4111 1111 1111 1111");
  }

  // ---------------------------------------------------------------------
  // The card pass never fires
  // ---------------------------------------------------------------------

  /** `t[j..e]` would be matched by the phone pattern at `j`. */
  ghost predicate PhoneShaped(t: string, j: nat, e: nat) {
    && j < e <= |t|
    && IsDigit(t[j])
    && (forall k :: j < k < e ==> InClass(t[k], PhoneBody))
    && exists m :: j + 8 <= m < e && IsDigit(t[m])
  }

  lemma PhoneShapedMatches(s: string, j: nat, e: nat)
    requires PhoneShaped(s, j, e)
    ensures PhoneMatch(s, j).Some?
  {
    var m :| j + 8 <= m < e && IsDigit(s[m]);
    var runEnd := RunEnd(s, j + 1, PhoneBody);
    assert e <= runEnd;
    assert LastDigit(s, j + 8, runEnd).Some?;
  }

  lemma CardMatchIsPhoneShaped(s: string, j: nat)
    requires j <= |s| && CardMatch(s, j).Some?
    ensures PhoneShaped(s, j, CardMatch(s, j).value)
  {
    var e := CardMatch(s, j).value;
    var m :| j + 12 <= m < e && IsDigit(s[m]);
    assert forall k :: j < k < e ==> InClass(s[k], PhoneBody) by {
      forall k | j < k < e ensures InClass(s[k], PhoneBody) {
        assert IsCardChar(s[k]);
      }
    }
    assert j + 8 <= m < e && IsDigit(s[m]);
  }

  lemma PhoneShapedShift(p: string, t: string, j: nat, e: nat)
    requires |p| <= j
    requires PhoneShaped(p + t, j, e)
    ensures PhoneShaped(t, j - |p|, e - |p|)
  {
    var m :| j + 8 <= m < e && IsDigit((p + t)[m]);
    assert IsDigit(t[m - |p|]);
    forall k | j - |p| < k < e - |p| ensures InClass(t[k], PhoneBody) {
      assert t[k] == (p + t)[k + |p|];
    }
  }

  /** The characters after the first digit of a phone-shaped stretch. */
  lemma PhoneShapedTail(c: char, rest: string, e: nat)
    requires PhoneShaped([c] + rest, 0, e)
    ensures BracketFree(rest, e - 1)
  {
    forall x | 0 <= x < e - 1 ensures rest[x] != '[' {
      assert rest[x] == ([c] + rest)[x + 1];
      assert InClass(rest[x], PhoneBody);
    }
  }

  /** A phone-shaped stretch of a copy of `s` is one of `s`. */
  lemma PhoneShapeCopied(out: string, s: string, i: nat, e: nat)
    requires PhoneShaped(out, 0, e) && CopyOf(out, s, i, e)
    ensures PhoneShaped(s, i, i + e)
  {
    var m :| 8 <= m < e && IsDigit(out[m]);
    assert IsDigit(s[i + m]);
    forall k | i < k < i + e ensures InClass(s[k], PhoneBody) {
      assert out[k - i] == s[k];
    }
  }

  /** No phone-shaped stretch starts inside a phone token. */
  lemma NoPhoneShapeInToken(rest: string, j: nat, e: nat)
    requires j < |PhoneToken|
    ensures !PhoneShaped(PhoneToken + rest, j, e)
  {
    TokensHoldNoPatternChars(Phone, j);
    assert (PhoneToken + rest)[j] == PhoneToken[j];
  }

  /**
   * No phone-shaped stretch starts at a character the phone pass copied,
   * unless one started there in its input.
   */
  lemma NoPhoneShapeAtCopy(s: string, i: nat, e: nat)
    requires i < |s| && !PhoneShaped(s, i, i + e)
    ensures !PhoneShaped([s[i]] + SubFrom(Phone, s, i + 1), 0, e)
  {
    if PhoneShaped([s[i]] + SubFrom(Phone, s, i + 1), 0, e) {
      PhoneShapeAtCopyIsInInput(s, i, e);
    }
  }

  lemma PhoneShapeAtCopyIsInInput(s: string, i: nat, e: nat)
    requires i < |s| && PhoneShaped([s[i]] + SubFrom(Phone, s, i + 1), 0, e)
    ensures PhoneShaped(s, i, i + e)
  {
    var rest := SubFrom(Phone, s, i + 1);
    PhoneShapedTail(s[i], rest, e);
    CopiedPrefix(Phone, s, i + 1, e - 1);
    CopiedCons(rest, s, i, e);
    PhoneShapeCopied([s[i]] + rest, s, i, e);
  }

  lemma NoMatchNoPhoneShape(s: string, i: nat, e: nat)
    requires i <= |s| && PhoneMatch(s, i).None?
    ensures !PhoneShaped(s, i, e)
  {
    if PhoneShaped(s, i, e) {
      PhoneShapedMatches(s, i, e);
    }
  }

  /** After the phone pass no phone-shaped stretch is left in the text. */
  lemma {:induction false} PhonePassLeavesNoPhoneShape(s: string, i: nat, j: nat, e: nat)
    requires i <= |s|
    ensures !PhoneShaped(SubFrom(Phone, s, i), j, e)
    decreases |s| - i
  {
    if i < |s| {
      match MatchAt(Phone, s, i)
      case Some(next) =>
        var rest := SubFrom(Phone, s, next);
        assert SubFrom(Phone, s, i) == PhoneToken + rest;
        if j < |PhoneToken| {
          NoPhoneShapeInToken(rest, j, e);
        } else {
          if PhoneShaped(PhoneToken + rest, j, e) {
            PhoneShapedShift(PhoneToken, rest, j, e);
            PhonePassLeavesNoPhoneShape(s, next, j - |PhoneToken|, e - |PhoneToken|);
          }
        }
      case None =>
        var rest := SubFrom(Phone, s, i + 1);
        assert SubFrom(Phone, s, i) == [s[i]] + rest;
        if j == 0 {
          NoMatchNoPhoneShape(s, i, i + e);
          NoPhoneShapeAtCopy(s, i, e);
        } else {
          if PhoneShaped([s[i]] + rest, j, e) {
            PhoneShapedShift([s[i]], rest, j, e);
            PhonePassLeavesNoPhoneShape(s, i + 1, j - 1, e - 1);
          }
        }
    }
  }

  /**
   * Every card match is also a phone match, so once the phone pass has run
   * the card pass finds nothing: it returns its input unchanged.
   */
  lemma CardPassIsInert(s: string)
    ensures Sub(Card, Sub(Phone, s)) == Sub(Phone, s)
  {
    var out := Sub(Phone, s);
    forall k | 0 <= k < |out| ensures MatchAt(Card, out, k).None? {
      if CardMatch(out, k).Some? {
        CardMatchIsPhoneShaped(out, k);
        PhonePassLeavesNoPhoneShape(s, 0, k, CardMatch(out, k).value);
      }
    }
    NoMatchIsIdentity(Card, out, 0);
  }

  /** `mask_pii` is, in effect, the email pass followed by the phone pass. */
  lemma MaskPiiIsEmailThenPhone(s: string)
    ensures MaskPii(s) == Sub(Phone, Sub(Email, s))
  {
    CardPassIsInert(Sub(Email, s));
  }

  // ---------------------------------------------------------------------
  // Masking twice changes nothing
  // ---------------------------------------------------------------------

  /**
   * What the email pattern needs at `j`: a local part up to the `@` at
   * `at`, a domain label up to the `.` at `dot`, and one character of the
   * tail.
   */
  ghost predicate EmailShaped(t: string, j: nat, at: nat, dot: nat) {
    && j < at && at + 1 < dot && dot + 1 < |t|
    && (forall k :: j <= k < at ==> InClass(t[k], LocalPart))
    && t[at] == '@'
    && (forall k :: at < k < dot ==> InClass(t[k], DomainLabel))
    && t[dot] == '.'
    && InClass(t[dot + 1], DomainTail)
  }

  /** Where the email pattern matches, it matches an email-shaped stretch. */
  lemma EmailMatchIsShaped(t: string, j: nat) returns (at: nat, dot: nat)
    requires j <= |t| && EmailMatch(t, j).Some?
    ensures EmailShaped(t, j, at, dot)
  {
    at := RunEnd(t, j, LocalPart);
    dot := RunEnd(t, at + 1, DomainLabel);
  }

  /** A run of `cls` that reaches a character outside `cls` ends there. */
  lemma {:induction false} RunStopsAt(t: string, i: nat, stop: nat, cls: CharClass)
    requires i <= stop < |t| && !InClass(t[stop], cls)
    requires forall k :: i <= k < stop ==> InClass(t[k], cls)
    ensures RunEnd(t, i, cls) == stop
    decreases stop - i
  {
    if i < stop {
      RunStopsAt(t, i + 1, stop, cls);
    }
  }

  lemma EmailShapedMatches(t: string, j: nat, at: nat, dot: nat)
    requires EmailShaped(t, j, at, dot)
    ensures EmailMatch(t, j).Some?
  {
    RunStopsAt(t, j, at, LocalPart);
    RunStopsAt(t, at + 1, dot, DomainLabel);
  }

  lemma NoEmailMatchNoShape(s: string, i: nat, at: nat, dot: nat)
    requires i <= |s| && EmailMatch(s, i).None?
    ensures !EmailShaped(s, i, at, dot)
  {
    if EmailShaped(s, i, at, dot) {
      EmailShapedMatches(s, i, at, dot);
    }
  }

  lemma EmailShapedShift(p: string, t: string, j: nat, at: nat, dot: nat)
    requires |p| <= j && EmailShaped(p + t, j, at, dot)
    ensures EmailShaped(t, j - |p|, at - |p|, dot - |p|)
  {
    forall k | j - |p| <= k < dot + 2 - |p| ensures t[k] == (p + t)[k + |p|] {
    }
  }

  lemma TokenClosesWithBracket(rule: Rule)
    ensures |Token(rule)| > 0 && Token(rule)[|Token(rule)| - 1] == ']'
  {
  }

  /**
   * No email-shaped stretch starts inside a token: a token holds no `@`,
   * and its closing `]` cannot be part of a local part.
   */
  lemma NoEmailShapeInToken(rule: Rule, rest: string, j: nat, at: nat, dot: nat)
    requires j < |Token(rule)|
    ensures !EmailShaped(Token(rule) + rest, j, at, dot)
  {
    var t := Token(rule) + rest;
    var last := |Token(rule)| - 1;
    TokenClosesWithBracket(rule);
    assert t[last] == ']';
    if at < |Token(rule)| {
      TokensHoldNoPatternChars(rule, at);
      assert t[at] == Token(rule)[at];
    }
  }

  lemma EmailShapedTail(c: char, rest: string, at: nat, dot: nat)
    requires EmailShaped([c] + rest, 0, at, dot)
    ensures BracketFree(rest, dot + 1)
  {
    var t := [c] + rest;
    forall x | 0 <= x < dot + 1 ensures rest[x] != '[' {
      assert rest[x] == t[x + 1];
      if x + 1 < at {
        assert InClass(t[x + 1], LocalPart);
      } else if at < x + 1 < dot {
        assert InClass(t[x + 1], DomainLabel);
      }
    }
  }

  /** An email-shaped stretch of a copy of `s` is one of `s`. */
  lemma EmailShapeCopied(out: string, s: string, i: nat, at: nat, dot: nat)
    requires EmailShaped(out, 0, at, dot) && CopyOf(out, s, i, dot + 2)
    ensures EmailShaped(s, i, i + at, i + dot)
  {
    forall k | i <= k < i + dot + 2 ensures s[k] == out[k - i] {
    }
  }

  lemma EmailShapeAtCopyIsInInput(rule: Rule, s: string, i: nat, at: nat, dot: nat)
    requires i < |s| && EmailShaped([s[i]] + SubFrom(rule, s, i + 1), 0, at, dot)
    ensures EmailShaped(s, i, i + at, i + dot)
  {
    var rest := SubFrom(rule, s, i + 1);
    EmailShapedTail(s[i], rest, at, dot);
    CopiedPrefix(rule, s, i + 1, dot + 1);
    CopiedCons(rest, s, i, dot + 2);
    EmailShapeCopied([s[i]] + rest, s, i, at, dot);
  }

  /**
   * No email-shaped stretch starts at a character a pass copied, unless
   * one started there in its input.
   */
  lemma NoEmailShapeAtCopy(rule: Rule, s: string, i: nat, at: nat, dot: nat)
    requires i < |s| && !EmailShaped(s, i, i + at, i + dot)
    ensures !EmailShaped([s[i]] + SubFrom(rule, s, i + 1), 0, at, dot)
  {
    if EmailShaped([s[i]] + SubFrom(rule, s, i + 1), 0, at, dot) {
      EmailShapeAtCopyIsInInput(rule, s, i, at, dot);
    }
  }

  /** From `i` on, the email pattern matches only where `rule` matches too. */
  ghost predicate EmailOnlyAtMatches(rule: Rule, s: string, i: nat) {
    forall k :: i <= k < |s| && MatchAt(rule, s, k).None? ==> EmailMatch(s, k).None?
  }

  lemma EmailOnlyAtMatchesLater(rule: Rule, s: string, i: nat, m: nat)
    requires i <= m && EmailOnlyAtMatches(rule, s, i)
    ensures EmailOnlyAtMatches(rule, s, m)
  {
  }

  lemma EmailOnlyAtMatchesHere(rule: Rule, s: string, i: nat)
    requires i < |s| && EmailOnlyAtMatches(rule, s, i) && MatchAt(rule, s, i).None?
    ensures EmailMatch(s, i).None?
  {
  }

  /** Past a prefix `p`, `p + t` is email-shaped only where `t` is. */
  lemma NoShapeAfterPrefix(p: string, t: string, j: nat, at: nat, dot: nat, j2: nat, at2: nat, dot2: nat)
    requires |p| <= j && j2 + |p| == j && at2 + |p| == at && dot2 + |p| == dot
    requires !EmailShaped(t, j2, at2, dot2)
    ensures !EmailShaped(p + t, j, at, dot)
  {
    if EmailShaped(p + t, j, at, dot) {
      EmailShapedShift(p, t, j, at, dot);
    }
  }

  /** No email-shaped stretch starts inside a token the pass wrote. */
  lemma NoShapeInMatchedToken(rule: Rule, s: string, i: nat, j: nat, at: nat, dot: nat)
    requires i < |s| && MatchAt(rule, s, i).Some? && j < |Token(rule)|
    ensures !EmailShaped(SubFrom(rule, s, i), j, at, dot)
  {
    SubFromAtMatch(rule, s, i);
    NoEmailShapeInToken(rule, SubFrom(rule, s, MatchAt(rule, s, i).value), j, at, dot);
  }

  /** `j2`, `at2`, `dot2` are `j`, `at`, `dot` shifted back past the token. */
  lemma NoShapeAfterToken(rule: Rule, s: string, i: nat, j: nat, at: nat, dot: nat, j2: nat, at2: nat, dot2: nat)
    requires i < |s| && MatchAt(rule, s, i).Some? && |Token(rule)| <= j
    requires j2 + |Token(rule)| == j && at2 + |Token(rule)| == at && dot2 + |Token(rule)| == dot
    requires !EmailShaped(SubFrom(rule, s, MatchAt(rule, s, i).value), j2, at2, dot2)
    ensures !EmailShaped(SubFrom(rule, s, i), j, at, dot)
  {
    SubFromAtMatch(rule, s, i);
    NoShapeAfterPrefix(Token(rule), SubFrom(rule, s, MatchAt(rule, s, i).value), j, at, dot, j2, at2, dot2);
  }

  lemma NoShapeAtCopyStart(rule: Rule, s: string, i: nat, at: nat, dot: nat)
    requires i < |s| && MatchAt(rule, s, i).None? && EmailMatch(s, i).None?
    ensures !EmailShaped(SubFrom(rule, s, i), 0, at, dot)
  {
    SubFromAtCopy(rule, s, i);
    NoEmailMatchNoShape(s, i, i + at, i + dot);
    NoEmailShapeAtCopy(rule, s, i, at, dot);
  }

  /** `j2`, `at2`, `dot2` are `j`, `at`, `dot` shifted back past the copied character. */
  lemma NoShapeAfterCopy(rule: Rule, s: string, i: nat, j: nat, at: nat, dot: nat, j2: nat, at2: nat, dot2: nat)
    requires i < |s| && MatchAt(rule, s, i).None? && 0 < j
    requires j2 + 1 == j && at2 + 1 == at && dot2 + 1 == dot
    requires !EmailShaped(SubFrom(rule, s, i + 1), j2, at2, dot2)
    ensures !EmailShaped(SubFrom(rule, s, i), j, at, dot)
  {
    SubFromAtCopy(rule, s, i);
    NoShapeAfterPrefix([s[i]], SubFrom(rule, s, i + 1), j, at, dot, j2, at2, dot2);
  }

  /**
   * A pass leaves no email-shaped stretch behind when the email pattern
   * matches at none of the positions it copies.
   */
  lemma {:induction false} PassLeavesNoEmailShape(rule: Rule, s: string, i: nat, j: nat, at: nat, dot: nat)
    requires i <= |s| && EmailOnlyAtMatches(rule, s, i)
    ensures !EmailShaped(SubFrom(rule, s, i), j, at, dot)
    decreases |s| - i
  {
    if i < |s| && j < at < dot {
      match MatchAt(rule, s, i)
      case Some(next) =>
        if j < |Token(rule)| {
          NoShapeInMatchedToken(rule, s, i, j, at, dot);
        } else {
          var n := |Token(rule)|;
          var j2, at2, dot2 := j - n, at - n, dot - n;
          EmailOnlyAtMatchesLater(rule, s, i, next);
          PassLeavesNoEmailShape(rule, s, next, j2, at2, dot2);
          NoShapeAfterToken(rule, s, i, j, at, dot, j2, at2, dot2);
        }
      case None =>
        if j == 0 {
          EmailOnlyAtMatchesHere(rule, s, i);
          NoShapeAtCopyStart(rule, s, i, at, dot);
        } else {
          var j2, at2, dot2 := j - 1, at - 1, dot - 1;
          EmailOnlyAtMatchesLater(rule, s, i, i + 1);
          PassLeavesNoEmailShape(rule, s, i + 1, j2, at2, dot2);
          NoShapeAfterCopy(rule, s, i, j, at, dot, j2, at2, dot2);
        }
    }
  }

  /** A pass leaves no email address behind when it copies none. */
  lemma PassLeavesNoEmail(rule: Rule, s: string, k: nat)
    requires EmailOnlyAtMatches(rule, s, 0) && k <= |SubFrom(rule, s, 0)|
    ensures EmailMatch(SubFrom(rule, s, 0), k).None?
  {
    if EmailMatch(SubFrom(rule, s, 0), k).Some? {
      var at, dot := EmailMatchIsShaped(SubFrom(rule, s, 0), k);
      PassLeavesNoEmailShape(rule, s, 0, k, at, dot);
    }
  }

  /** After the email pass the email pattern matches nowhere. */
  lemma EmailPassLeavesNoEmail(s: string, k: nat)
    requires k <= |Sub(Email, s)|
    ensures EmailMatch(Sub(Email, s), k).None?
  {
    assert EmailOnlyAtMatches(Email, s, 0);
    PassLeavesNoEmail(Email, s, k);
  }

  /** The phone pass puts no email address into text that held none. */
  lemma PhonePassAddsNoEmail(t: string, k: nat)
    requires forall x :: 0 <= x < |t| ==> EmailMatch(t, x).None?
    requires k <= |Sub(Phone, t)|
    ensures EmailMatch(Sub(Phone, t), k).None?
  {
    assert EmailOnlyAtMatches(Phone, t, 0);
    PassLeavesNoEmail(Phone, t, k);
  }

  /** Where the phone pattern matches, a phone-shaped stretch starts at its first digit. */
  lemma PhoneMatchIsPhoneShaped(s: string, k: nat)
    requires k <= |s| && PhoneMatch(s, k).Some?
    ensures PhoneShaped(s, if k < |s| && s[k] == '+' then k + 1 else k, PhoneMatch(s, k).value)
  {
    var d := if k < |s| && s[k] == '+' then k + 1 else k;
    var m := LastDigit(s, d + 8, RunEnd(s, d + 1, PhoneBody)).value;
    assert PhoneMatch(s, k).value == m + 1;
  }

  /** After the phone pass the phone pattern matches nowhere. */
  lemma PhonePassLeavesNoPhone(s: string, k: nat)
    requires k <= |Sub(Phone, s)|
    ensures PhoneMatch(Sub(Phone, s), k).None?
  {
    var u := Sub(Phone, s);
    if PhoneMatch(u, k).Some? {
      PhoneMatchIsPhoneShaped(u, k);
      PhonePassLeavesNoPhoneShape(s, 0, if k < |u| && u[k] == '+' then k + 1 else k, PhoneMatch(u, k).value);
    }
  }

  /** Masking is idempotent: the masked text has nothing left to mask. */
  lemma MaskPiiIsIdempotent(s: string)
    ensures MaskPii(MaskPii(s)) == MaskPii(s)
  {
    var t := Sub(Email, s);
    var u := Sub(Phone, t);
    MaskPiiIsEmailThenPhone(s);
    MaskPiiIsEmailThenPhone(u);
    forall x | 0 <= x < |t| ensures EmailMatch(t, x).None? {
      EmailPassLeavesNoEmail(s, x);
    }
    forall k | 0 <= k < |u| ensures MatchAt(Email, u, k).None? {
      PhonePassAddsNoEmail(t, k);
    }
    NoMatchIsIdentity(Email, u, 0);
    forall k | 0 <= k < |u| ensures MatchAt(Phone, u, k).None? {
      PhonePassLeavesNoPhone(t, k);
    }
    NoMatchIsIdentity(Phone, u, 0);
    assert u[0..] == u;
  }
}
