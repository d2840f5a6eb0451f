/** Data shared by the components (maskguard/models.py). */
module Models {

  datatype Option<+T> = None | Some(value: T)

  datatype BoundingBox = BoundingBox(x: int, y: int, width: int, height: int)
  {
    function Right(): int { x + width }

    function Bottom(): int { y + height }

    /** `inner` lies within this box. */
    predicate Contains(inner: BoundingBox) {
      x <= inner.x && y <= inner.y && inner.Right() <= Right() && inner.Bottom() <= Bottom()
    }

    predicate Overlaps(other: BoundingBox) {
      x < other.Right() && other.x < Right() && y < other.Bottom() && other.y < Bottom()
    }
  }

  predicate Holds(b: BoundingBox, x: int, y: int) { b.x <= x < b.x + b.width && b.y <= y < b.y + b.height }

  /** Two nonempty boxes overlap exactly when they share a pixel. */
  lemma {:induction false} OverlapsExactly(a: BoundingBox, b: BoundingBox)
    requires a.width > 0 && a.height > 0 && b.width > 0 && b.height > 0
    ensures a.Overlaps(b) <==> exists x, y :: Holds(a, x, y) && Holds(b, x, y)
  {
    if a.Overlaps(b) {
      assert Holds(a, Max(a.x, b.x), Max(a.y, b.y)) && Holds(b, Max(a.x, b.x), Max(a.y, b.y));
    }
  }

  /** A nonempty box is contained in another exactly when all its pixels are. */
  lemma {:induction false} ContainsExactly(a: BoundingBox, b: BoundingBox)
    requires b.width > 0 && b.height > 0
    ensures a.Contains(b) <==> forall x, y :: Holds(b, x, y) ==> Holds(a, x, y)
  {
    assert Holds(b, b.x, b.y) && Holds(b, b.Right() - 1, b.Bottom() - 1);
  }

  datatype OcrToken = OcrToken(text: string, confidence: real, box: BoundingBox)

  datatype RiskLevel = LOW | MEDIUM | HIGH | CRITICAL
  {
    function Rank(): nat {
      match this
      case LOW => 0
      case MEDIUM => 1
      case HIGH => 2
      case CRITICAL => 3
    }

    static function FromScore(score: real): RiskLevel {
      if score >= 0.80 then CRITICAL
      else if score >= 0.60 then HIGH
      else if score >= 0.30 then MEDIUM
      else LOW
    }
  }

  datatype RedactionAction = FULL_MASK | BLUR | PIXELATE | PARTIAL_MASK | NONE

  /** The type names the detectors use; user rules and unlisted names carry their own. */
  datatype Kind =
    | SecretKeyValue | JWT | BearerToken | OpaqueSecret
    | CreditCard | TaiwanID | Passport | BankAccount
    | PersonalName | Phone | PhoneTW | Address | Email | Birthday | EmployeeID | CustomerID
    | URL | IPAddress | UnknownKind
    | UserRule(name: string) | OtherKind(name: string)

  /** Which detector, or which part of the review, a finding came from. */
  datatype Layer =
    RegexLayer | ContextLayer | CandidateLayer | AiLayer | UserRuleLayer | ReviewKeptLayer | ManualReviewLayer

  datatype KeywordHit = KeywordHit(keyword: string, category: string, critical: bool, box: BoundingBox)

  datatype Detection = Detection(
    kind: Kind,
    text: string,
    confidence: real,
    box: BoundingBox,
    riskScore: real,
    riskLevel: RiskLevel,
    action: RedactionAction,
    sourceLayers: seq<Layer>,
    unknown: bool,
    needsReview: bool)

  /** An ASCII letter or digit. */
  predicate LetterOrDigit(c: char) { '0' <= c <= '9' || 'A' <= c <= 'Z' || 'a' <= c <= 'z' }

  function Min(a: int, b: int): int { if a <= b then a else b }

  function Max(a: int, b: int): int { if a <= b then b else a }

  /** Python's `int`: towards zero. */
  function Truncated(x: real): int { if x >= 0.0 then x.Floor else -((-x).Floor) }
}
