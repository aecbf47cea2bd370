/** The program's immutable records: what a collector delivers, what extraction concludes, and
    the policy read from the configuration. Money and rates are exact reals, instants are integer
    microseconds UTC, and a confidence is the shortest decimal that denotes the stored double. */
module Models {

  datatype Option<+T> = None | Some(value: T)

  datatype SaleType = BuyNow | Auction | BestOffer

  datatype Kind = Rdimm | Lrdimm | UdimmEcc | UnknownKind

  datatype PriceBasis = Lot | Unit | UnknownBasis

  datatype Method = PartNumber | Rules | Llm

  datatype Urgency = Immediate | Quiet | Watch | NoUrgency

  datatype Reason =
    | Ddr3 | Ddr5 | Sodimm | KeywordReject
    | UdimmNonEcc | Capacity4Gb | CapacityReject | SpeedRejected
    | LowConfidence | BestCaseAboveCeiling | LlmSchemaInvalid

  /** The result of extraction. */
  datatype Spec = Spec(
    capacity: Option<int>,
    count: int,
    total: Option<int>,
    kind: Kind,
    speed: Option<int>,
    basis: PriceBasis,
    confidence: real,
    via: Method,
    reject: Option<Reason>)
  {
    predicate Qualified() { reject.None? }

    /** The declared per-module capacity and count multiply out to the total. */
    predicate Coherent() {
      capacity.Some? && total.Some? && count >= 1 ==> capacity.value * count == total.value
    }
  }

  /** A maximal run of digits in a text. `glued`: a word character touches it on the left, so
      no word boundary precedes it. `unit`: optional blanks, a gigabyte unit and a word boundary
      follow it. */
  datatype DigitRun = DigitRun(digits: seq<nat>, glued: bool, unit: bool)

  /** What the part-number tables say about the first reference they recognise. */
  datatype Decoded =
    | Module(capacity: int, kind: Kind, speed: Option<int>)
    | RejectedModule

  /** Everything the regular expressions report about one text. Each list holds the matches of
      one expression in text order, so that `search` is the first element of `findall`. */
  datatype Scan = Scan(
    runs: seq<DigitRun>,
    totals: seq<nat>,
    nxm: seq<(nat, nat)>,
    parensNxm: seq<(nat, nat)>,
    multipliers: seq<seq<nat>>,
    wordCounts: seq<nat>,
    unitMarker: bool,
    pluralContainer: bool,
    kind: Kind,
    speed: Option<int>,
    pc4Speed: Option<int>,
    keyword: Option<Reason>,
    decoded: Option<Decoded>)

  /** A title and description: the normalised string that is hashed into `spec_hash`, and what
      the expressions find in the raw text. */
  datatype Text = Text(normalized: string, scan: Scan)

  /** `spec_hash` is injective on normalised texts, so the normalised text stands for it. */
  type SpecHash = string

  /** An archived payload: a JSON object by its top-level keys, some other JSON value, a blob that
      lacks the archive prefix or holds no JSON, or one whose compressed frame does not decompress.
      `Marker` is the object written over what cannot be read. */
  datatype Payload =
    | Object(fields: map<string, string>)
    | OtherJson(value: string)
    | Unreadable(blob: string)
    | Corrupt(blob: string)
    | Marker
  {
    predicate SellerFree() {
      !Unreadable? && !Corrupt? && (Object? ==> "seller" !in fields)
    }
  }

  /** An offer as collected. `currency` is the upper-cased code. */
  datatype Listing = Listing(
    source: string,
    externalId: string,
    text: Text,
    price: real,
    currency: string,
    shipping: Option<real>,
    saleType: SaleType,
    currentBid: Option<real>,
    endsAt: Option<int>,
    seller: Option<string>,
    payload: Payload,
    eligible: bool)
  {
    function Key(): (string, string) { (source, externalId) }

    function Hash(): SpecHash { text.normalized }

    /** The record's own validators: no negative shipping, every auction has an end. */
    predicate Valid() {
      && (shipping.Some? ==> shipping.value >= 0.0)
      && (saleType == Auction ==> endsAt.Some?)
    }
  }

  /** The fingerprint's key; SHA-256 is injective on it. */
  datatype Fingerprint = Fingerprint(seller: string, capacity: int, count: int, bucket: int)

  datatype Deal = Deal(
    listing: Listing,
    spec: Spec,
    totalCost: real,
    eurPerGb: real,
    marketRef: Option<real>,
    discount: real,
    urgency: Urgency,
    maxBid: Option<real>,
    fingerprint: Fingerprint,
    shippingEstimated: bool)

  /** The thresholds file as the decision rules see it. */
  datatype Policy = Policy(
    ceiling: real,
    minDiscount: real,
    floor: real,
    minTotal: int,
    minConfidence: real,
    shippingEstimate: real,
    rates: map<string, real>,
    gateMinutes: int,
    bidIncrement: real)

  /** The compatibility matrix: only the parts qualification reads. */
  datatype Matrix = Matrix(capacityReject: set<int>, capacityAccept: set<int>, speeds: set<int>)

  /** The market index as the program iterates over it: capacity bucket and reference price. */
  type Index = seq<(int, real)>
}
