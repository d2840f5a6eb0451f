/**
 Whether a value can still be read from re-recognised text
 (maskguard/verification/normalization.py, `_assess_crop` of verification_engine.py).
 */
module ResidualText {
  import opened Collections
  import opened ContextNormalization
  import opened Models

  // ---------- normalisation ----------

  predicate NumericSeparators(kind: Kind) { kind.CreditCard? || kind.BankAccount? || kind.Phone? || kind.PhoneTW? }

  /** A character that carries no information in a value of this type. */
  predicate Blank(kind: Kind, c: char) {
    IsSpace(c) || (NumericSeparators(kind) && (c == '-' || c == '.' || c == '/'))
  }

  function Normal(text: string, kind: Kind): string {
    if text == "" then ""
    else (if Blank(kind, text[0]) then "" else [text[0]]) + Normal(text[1..], kind)
  }

  function TrimLeft(text: string): string {
    if text != "" && IsSpace(text[0]) then TrimLeft(text[1..]) else text
  }

  function TrimRight(text: string): string {
    if text != "" && IsSpace(text[|text| - 1]) then TrimRight(text[..|text| - 1]) else text
  }

  function Strip(text: string): string { TrimRight(TrimLeft(text)) }

  /** The token texts with a space between them. */
  function Join(tokens: seq<OcrToken>): string {
    if tokens == [] then ""
    else if |tokens| == 1 then tokens[0].text
    else tokens[0].text + " " + Join(tokens[1..])
  }

  /** The token texts with nothing between them. */
  function Spell(tokens: seq<OcrToken>): string {
    if tokens == [] then "" else tokens[0].text + Spell(tokens[1..])
  }

  predicate Contains(text: string, needle: string) {
    exists i, j :: 0 <= i <= j <= |text| && text[i..j] == needle
  }

  // ---------- assessing a crop ----------

  datatype CropOutcome = CLEAN | FOUND | UNKNOWN

  const AMBIGUOUS_CONFIDENCE := 0.35

  function Total(tokens: seq<OcrToken>): real {
    if tokens == [] then 0.0 else Total(tokens[..|tokens| - 1]) + tokens[|tokens| - 1].confidence
  }

  predicate Readable(d: Detection, tokens: seq<OcrToken>) {
    Normal(Strip(d.text), d.kind) != "" && Contains(Normal(Join(tokens), d.kind), Normal(Strip(d.text), d.kind))
  }

  /** `redetect` stands for the pattern detector, run on the tokens of the crop. */
  function AssessCrop(d: Detection, tokens: seq<OcrToken>, redetect: seq<OcrToken> -> seq<Kind>): CropOutcome {
    if Readable(d, tokens) then FOUND
    else if d.kind in redetect(tokens) then FOUND
    else if tokens == [] then CLEAN
    else if Total(tokens) / |tokens| as real < AMBIGUOUS_CONFIDENCE then UNKNOWN
    else CLEAN
  }

  // ---------- what normalisation promises ----------

  lemma {:induction false} TailOfConcat<T>(a: seq<T>, b: seq<T>)
    requires a != []
    ensures a + b != [] && (a + b)[0] == a[0] && (a + b)[1..] == a[1..] + b
  {}

  lemma {:induction false} NormalConcat(a: string, b: string, kind: Kind)
    ensures Normal(a + b, kind) == Normal(a, kind) + Normal(b, kind)
  {
    if a == "" {
      assert a + b == b;
    } else {
      TailOfConcat(a, b);
      NormalConcat(a[1..], b, kind);
      Regroup(if Blank(kind, a[0]) then "" else [a[0]], Normal(a[1..], kind), Normal(b, kind));
    }
  }

  lemma {:induction false} BlanksVanish(text: string, kind: Kind)
    requires forall i :: 0 <= i < |text| ==> Blank(kind, text[i])
    ensures Normal(text, kind) == ""
  {
    if text != "" {
      BlanksVanish(text[1..], kind);
    }
  }

  /** Separators of any length, anywhere, change nothing. */
  lemma {:induction false} SeparatorsInvisible(before: string, separator: string, after: string, kind: Kind)
    requires forall i :: 0 <= i < |separator| ==> Blank(kind, separator[i])
    ensures Normal(before + separator + after, kind) == Normal(before + after, kind)
  {
    NormalConcat(before + separator, after, kind);
    NormalConcat(before, separator, kind);
    NormalConcat(before, after, kind);
    BlanksVanish(separator, kind);
  }

  lemma {:induction false} SolidStays(text: string, kind: Kind)
    requires forall i :: 0 <= i < |text| ==> !Blank(kind, text[i])
    ensures Normal(text, kind) == text
  {
    if text != "" {
      SolidStays(text[1..], kind);
    }
  }

  lemma {:induction false} NormalIsSolid(text: string, kind: Kind)
    ensures forall i :: 0 <= i < |Normal(text, kind)| ==> !Blank(kind, Normal(text, kind)[i])
  {
    if text != "" {
      NormalIsSolid(text[1..], kind);
    }
  }

  /** Normalising twice changes nothing. */
  lemma {:induction false} NormalIdempotent(text: string, kind: Kind)
    ensures Normal(Normal(text, kind), kind) == Normal(text, kind)
  {
    NormalIsSolid(text, kind);
    SolidStays(Normal(text, kind), kind);
  }

  lemma {:induction false} TrimLeftInvisible(text: string, kind: Kind)
    ensures Normal(TrimLeft(text), kind) == Normal(text, kind)
  {
    if text != "" && IsSpace(text[0]) {
      TrimLeftInvisible(text[1..], kind);
    }
  }

  lemma {:induction false} TrimRightInvisible(text: string, kind: Kind)
    ensures Normal(TrimRight(text), kind) == Normal(text, kind)
  {
    if text != "" && IsSpace(text[|text| - 1]) {
      TrimRightInvisible(text[..|text| - 1], kind);
      assert text == text[..|text| - 1] + text[|text| - 1..];
      NormalConcat(text[..|text| - 1], text[|text| - 1..], kind);
      BlanksVanish(text[|text| - 1..], kind);
    }
  }

  lemma {:induction false} StripInvisible(text: string, kind: Kind)
    ensures Normal(Strip(text), kind) == Normal(text, kind)
  {
    TrimLeftInvisible(text, kind);
    TrimRightInvisible(TrimLeft(text), kind);
  }

  /** How the text was cut into tokens cannot be seen. */
  lemma {:induction false} TokenisationInvisible(tokens: seq<OcrToken>, kind: Kind)
    ensures Normal(Join(tokens), kind) == Normal(Spell(tokens), kind)
  {
    if tokens == [] {
    } else if |tokens| == 1 {
      assert tokens[0].text + Spell(tokens[1..]) == tokens[0].text;
    } else {
      TokenisationInvisible(tokens[1..], kind);
      SeparatorsInvisible(tokens[0].text, " ", Join(tokens[1..]), kind);
      NormalConcat(tokens[0].text, Join(tokens[1..]), kind);
      NormalConcat(tokens[0].text, Spell(tokens[1..]), kind);
    }
  }

  lemma {:induction false} SpellConcat(a: seq<OcrToken>, b: seq<OcrToken>)
    ensures Spell(a + b) == Spell(a) + Spell(b)
  {
    if a == [] {
      assert a + b == b;
    } else {
      TailOfConcat(a, b);
      SpellConcat(a[1..], b);
      Regroup(a[0].text, Spell(a[1..]), Spell(b));
    }
  }

  // ---------- what the check finds ----------

  /** Some stretch of the text normalises to `needle`. */
  predicate Respelled(text: string, needle: string, kind: Kind) {
    exists i, j :: 0 <= i <= j <= |text| && Normal(text[i..j], kind) == needle
  }

  /** Every prefix of the normal form comes from a prefix of the text. */
  lemma {:induction false} PrefixComesFrom(text: string, kind: Kind, p: nat) returns (i: nat)
    requires p <= |Normal(text, kind)|
    ensures i <= |text| && Normal(text[..i], kind) == Normal(text, kind)[..p]
  {
    if p == 0 {
      i := 0;
      assert text[..0] == "";
    } else {
      var q := if Blank(kind, text[0]) then p else p - 1;
      var j := PrefixComesFrom(text[1..], kind, q);
      i := j + 1;
      assert text[..i][1..] == text[1..][..j];
    }
  }

  lemma {:induction false} TwoParts(text: string, i: nat, kind: Kind)
    requires i <= |text|
    ensures Normal(text, kind) == Normal(text[..i], kind) + Normal(text[i..], kind)
  {
    assert text == text[..i] + text[i..];
    NormalConcat(text[..i], text[i..], kind);
  }

  lemma {:induction false} RespelledIsContained(text: string, i: nat, j: nat, kind: Kind)
    requires i <= j <= |text|
    ensures Contains(Normal(text, kind), Normal(text[i..j], kind))
  {
    TwoParts(text, i, kind);
    TwoParts(text[i..], j - i, kind);
    assert text[i..][..j - i] == text[i..j];
    Middle(Normal(text[..i], kind), Normal(text[i..j], kind), Normal(text[i..][j - i..], kind));
  }

  lemma {:induction false} Middle(a: string, b: string, c: string)
    ensures Contains(a + (b + c), b)
  {
    assert (a + (b + c))[|a|..|a| + |b|] == b;
  }

  lemma {:induction false} ContainedIsRespelled(text: string, p: nat, q: nat, kind: Kind)
    requires p <= q <= |Normal(text, kind)|
    ensures Respelled(text, Normal(text, kind)[p..q], kind)
  {
    var normal := Normal(text, kind);
    var i := PrefixComesFrom(text, kind, p);
    TwoParts(text, i, kind);
    Suffix(normal, Normal(text[i..], kind), p);
    var j := PrefixComesFrom(text[i..], kind, q - p);
    assert normal[p..][..q - p] == normal[p..q];
    assert text[i..][..j] == text[i..i + j];
  }

  lemma {:induction false} Suffix<T>(s: seq<T>, tail: seq<T>, p: nat)
    requires p <= |s| && s == s[..p] + tail
    ensures tail == s[p..]
  {}

  /** The check on normal forms finds a value exactly when a stretch of the text, with any
      blanks in it, spells the value. */
  lemma {:induction false} ContainedExactlyWhenRespelled(text: string, needle: string, kind: Kind)
    ensures Contains(Normal(text, kind), needle) <==> Respelled(text, needle, kind)
  {
    if Respelled(text, needle, kind) {
      var i, j :| 0 <= i <= j <= |text| && Normal(text[i..j], kind) == needle;
      RespelledIsContained(text, i, j, kind);
    }
    if Contains(Normal(text, kind), needle) {
      var p, q :| 0 <= p <= q <= |Normal(text, kind)| && Normal(text, kind)[p..q] == needle;
      ContainedIsRespelled(text, p, q, kind);
    }
  }

  /** A value is readable from a crop exactly when a stretch of the recognised text spells it. */
  lemma {:induction false} ReadableExactly(d: Detection, tokens: seq<OcrToken>)
    ensures Readable(d, tokens) <==>
              Normal(d.text, d.kind) != "" && Respelled(Join(tokens), Normal(d.text, d.kind), d.kind)
  {
    StripInvisible(d.text, d.kind);
    ContainedExactlyWhenRespelled(Join(tokens), Normal(d.text, d.kind), d.kind);
  }

  lemma {:induction false} RunIsRespelled(d: Detection, tokens: seq<OcrToken>, from: nat, to: nat)
    requires from <= to <= |tokens| && Normal(d.text, d.kind) != ""
    requires Normal(Spell(tokens[from..to]), d.kind) == Normal(d.text, d.kind)
    ensures Readable(d, tokens)
  {
    var before, run, after := tokens[..from], tokens[from..to], tokens[to..];
    assert tokens == before + run + after;
    SpellConcat(before + run, after);
    SpellConcat(before, run);
    TokenisationInvisible(tokens, d.kind);
    StripInvisible(d.text, d.kind);
    NormalConcat(Spell(before) + Spell(run), Spell(after), d.kind);
    NormalConcat(Spell(before), Spell(run), d.kind);
    Regroup(Normal(Spell(before), d.kind), Normal(Spell(run), d.kind), Normal(Spell(after), d.kind));
    Middle(Normal(Spell(before), d.kind), Normal(Spell(run), d.kind), Normal(Spell(after), d.kind));
  }

  /** A crop without a finding: no run of its tokens, cut or separated in any way that
      carries no information, spells the value. */
  lemma {:induction false} NothingSpellsIt(d: Detection, tokens: seq<OcrToken>, redetect: seq<OcrToken> -> seq<Kind>)
    requires AssessCrop(d, tokens, redetect) != FOUND && Normal(d.text, d.kind) != ""
    ensures !Respelled(Join(tokens), Normal(d.text, d.kind), d.kind)
    ensures forall from, to :: 0 <= from <= to <= |tokens| ==>
              Normal(Spell(tokens[from..to]), d.kind) != Normal(d.text, d.kind)
    ensures d.kind !in redetect(tokens)
  {
    ReadableExactly(d, tokens);
    forall from, to | 0 <= from <= to <= |tokens|
      ensures Normal(Spell(tokens[from..to]), d.kind) != Normal(d.text, d.kind)
    {
      if Normal(Spell(tokens[from..to]), d.kind) == Normal(d.text, d.kind) {
        RunIsRespelled(d, tokens, from, to);
      }
    }
  }

  // ---------- what normalisation keeps ----------

  /** The places of the characters kept, in order. */
  ghost predicate KeptPlaces(text: string, normal: string, at: seq<nat>) {
    && |at| == |normal| && (forall k, l :: 0 <= k < l < |at| ==> at[k] < at[l])
    && forall k :: 0 <= k < |at| ==> at[k] < |text| && normal[k] == text[at[k]]
  }

  /** One place to the right. */
  ghost function Shifted(at: seq<nat>): (r: seq<nat>)
    ensures |r| == |at| && forall k :: 0 <= k < |at| ==> r[k] == at[k] + 1
  {
    seq(|at|, k requires 0 <= k < |at| => at[k] + 1)
  }

  lemma {:induction false} ShiftedHas(at: seq<nat>, i: nat)
    ensures i + 1 in Shifted(at) <==> i in at
    ensures 0 !in Shifted(at)
  {
    if i in at {
      var k :| 0 <= k < |at| && at[k] == i;
      assert Shifted(at)[k] == i + 1;
    }
  }

  ghost function Places(text: string, kind: Kind): seq<nat> {
    if text == "" then []
    else (if Blank(kind, text[0]) then [] else [0]) + Shifted(Places(text[1..], kind))
  }

  lemma {:induction false} PlacesKept(text: string, kind: Kind)
    ensures KeptPlaces(text, Normal(text, kind), Places(text, kind))
  {
    if text != "" {
      PlacesKept(text[1..], kind);
    }
  }

  lemma {:induction false} PlaceKept(text: string, kind: Kind, i: nat)
    requires i < |text|
    ensures i in Places(text, kind) <==> !Blank(kind, text[i])
  {
    ShiftedHas(Places(text[1..], kind), if i == 0 then 0 else i - 1);
    if i > 0 {
      PlaceKept(text[1..], kind, i - 1);
    }
  }

  /** Normalising keeps, in order and each as often as it is there, the characters that are not
      white space nor, in a card, account or phone number, a hyphen, a dot or a slash. */
  lemma {:induction false} NormalKeepsExactly(text: string, kind: Kind) returns (at: seq<nat>)
    ensures KeptPlaces(text, Normal(text, kind), at)
    ensures forall i :: 0 <= i < |text| ==>
              (i in at <==>
                 && !IsSpace(text[i])
                 && !(kind in {CreditCard, BankAccount, Phone, PhoneTW} && text[i] in {'-', '.', '/'}))
  {
    at := Places(text, kind);
    PlacesKept(text, kind);
    forall i | 0 <= i < |text|
      ensures i in at <==> !Blank(kind, text[i])
    {
      PlaceKept(text, kind, i);
    }
  }

  /** A value with a letter or a digit never normalises to nothing. */
  lemma {:induction false} ValueStays(text: string, kind: Kind, i: nat)
    requires i < |text| && LetterOrDigit(text[i])
    ensures Normal(text, kind) != ""
  {
    var at := NormalKeepsExactly(text, kind);
    assert i in at;
  }

  /** Stripping takes white space off both ends and nothing else. */
  lemma {:induction false} StripExactly(text: string) returns (from: nat, to: nat)
    ensures from <= to <= |text| && Strip(text) == text[from..to]
    ensures forall i :: 0 <= i < |text| && (i < from || to <= i) ==> IsSpace(text[i])
    ensures from < to ==> !IsSpace(text[from]) && !IsSpace(text[to - 1])
  {
    from := TrimLeftExactly(text);
    to := TrimRightExactly(text[from..]);
    assert text[from..][..to] == text[from..from + to];
    to := from + to;
    assert forall i :: to <= i < |text| ==> text[i] == text[from..][i - from];
  }

  lemma {:induction false} TrimLeftExactly(text: string) returns (from: nat)
    ensures from <= |text| && TrimLeft(text) == text[from..]
    ensures forall i :: 0 <= i < from ==> IsSpace(text[i])
    ensures from < |text| ==> !IsSpace(text[from])
  {
    if text != "" && IsSpace(text[0]) {
      from := TrimLeftExactly(text[1..]);
      assert text[1..][from..] == text[from + 1..];
      assert forall i :: 1 <= i < from + 1 ==> text[i] == text[1..][i - 1];
      from := from + 1;
    } else {
      from := 0;
    }
  }

  lemma {:induction false} TrimRightExactly(text: string) returns (to: nat)
    ensures to <= |text| && TrimRight(text) == text[..to]
    ensures forall i :: to <= i < |text| ==> IsSpace(text[i])
    ensures to > 0 ==> !IsSpace(text[to - 1])
  {
    if text != "" && IsSpace(text[|text| - 1]) {
      to := TrimRightExactly(text[..|text| - 1]);
      assert text[..|text| - 1][..to] == text[..to];
    } else {
      to := |text|;
    }
  }

  // ---------- the verdict on a crop ----------

  /** The normal form of the value, which is not empty, is that of a stretch of what was read. */
  ghost predicate Legible(d: Detection, tokens: seq<OcrToken>) {
    && Normal(d.text, d.kind) != ""
    && exists i, j :: 0 <= i <= j <= |Join(tokens)| &&
         Normal(Join(tokens)[i..j], d.kind) == Normal(d.text, d.kind)
  }

  /** The three verdicts: found when the value is legible or its type is detected again; else
      unknown when something was read, with a mean confidence below 0.35; else clean. */
  lemma {:induction false} AssessedExactly(d: Detection, tokens: seq<OcrToken>, redetect: seq<OcrToken> -> seq<Kind>)
    ensures var verdict, found := AssessCrop(d, tokens, redetect), Legible(d, tokens) || d.kind in redetect(tokens);
            && (verdict == FOUND <==> found)
            && (verdict == UNKNOWN <==> !found && tokens != [] && Total(tokens) < 0.35 * |tokens| as real)
            && (verdict == CLEAN <==> !found && (tokens == [] || Total(tokens) >= 0.35 * |tokens| as real))
  {
    ReadableExactly(d, tokens);
    if tokens != [] {
      MeanBelow(Total(tokens), |tokens| as real, 0.35);
    }
  }

  lemma {:induction false} MeanBelow(total: real, n: real, bound: real)
    requires n > 0.0
    ensures total / n < bound <==> total < bound * n
  {
    var q := total / n;
    assert q * n == total;
    if q < bound {
      assert (bound - q) * n > 0.0;
    } else {
      assert (q - bound) * n >= 0.0;
    }
  }

  /** The total is that of the confidences. */
  lemma {:induction false} TotalWithin(tokens: seq<OcrToken>, least: real, greatest: real)
    requires forall k :: 0 <= k < |tokens| ==> least <= tokens[k].confidence <= greatest
    ensures least * |tokens| as real <= Total(tokens) <= greatest * |tokens| as real
  {
    if tokens != [] {
      TotalWithin(tokens[..|tokens| - 1], least, greatest);
    }
  }

  /** A value read as one of the tokens is found. */
  lemma {:induction false} TokenIsFound(d: Detection, tokens: seq<OcrToken>, redetect: seq<OcrToken> -> seq<Kind>,
        k: nat, i: nat)
    requires k < |tokens| && tokens[k].text == d.text && i < |d.text| && LetterOrDigit(d.text[i])
    ensures AssessCrop(d, tokens, redetect) == FOUND
  {
    ValueStays(d.text, d.kind, i);
    assert tokens[k..k + 1] == [tokens[k]];
    assert [tokens[k]][1..] == [] && Spell([]) == "" && d.text + "" == d.text;
    RunIsRespelled(d, tokens, k, k + 1);
  }
}
