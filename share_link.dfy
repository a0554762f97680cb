/** The share-link record codec: the compact single-letter form written into a
    link, its restoration, and the normalisation applied to records read from a
    link. The JSON text, LZString compression and URI encoding between these
    steps are not part of this model; records pass through them as values. */
module ShareLink {
  import opened Records
  import opened Text

  /** A JSON value as it can appear in a coordinate slot of a parsed record:
      missing (or null), a string, or an integral number. */
  datatype JsValue = Absent | JsString(s: string) | JsNumber(n: int)

  /** A record in the compact form of a share link: keys i, p, n, d, c, u, x, y. */
  datatype Compact = Compact(
    i: Option<string>,
    p: Option<string>,
    n: Option<string>,
    d: Option<string>,
    c: Option<string>,
    u: Option<string>,
    x: JsValue,
    y: JsValue)

  /** A record with the long key names as it comes out of JSON.parse, before
      normalisation; every key may be missing. */
  datatype Loose = Loose(
    id: Option<string>,
    parentId: Option<string>,
    name: Option<string>,
    description: Option<string>,
    iconUrl: Option<string>,
    url: Option<string>,
    x: JsValue,
    y: JsValue)

  /** `v || ''` for a text slot: a missing key reads as the empty string. */
  function OrEmpty(v: Option<string>): string {
    match v
    case None => ""
    case Some(s) => s
  }

  /** `parseInt(v) || 0`: a number is read back through its decimal text, a
      string through parseInt, and a missing value gives NaN, hence 0. */
  function CoordinateOf(v: JsValue): int {
    match v
    case Absent => 0
    case JsString(s) => IntOrZero(s)
    case JsNumber(n) => IntOrZero(Decimal(n))
  }

  /** A number placed in a coordinate slot is read back as itself. */
  lemma NumberCoordinate(n: int)
    ensures CoordinateOf(JsNumber(n)) == n
  {
    ParseIntDecimal(n, "");
    assert Decimal(n) + "" == Decimal(n);
  }

  function OptimizeNode(node: Node): Compact {
    Compact(Some(node.id), Some(node.parentId), Some(node.name), Some(node.description),
            Some(node.iconUrl), Some(node.url), JsNumber(node.x), JsNumber(node.y))
  }

  /** optimizeTreeData: every record renamed to the single-letter keys, in order. */
  function OptimizeTreeData(data: seq<Node>): seq<Compact> {
    seq(|data|, k requires 0 <= k < |data| => OptimizeNode(data[k]))
  }

  function RestoreNode(c: Compact): Node {
    Node(OrEmpty(c.i), OrEmpty(c.p), OrEmpty(c.n), OrEmpty(c.d), OrEmpty(c.c), OrEmpty(c.u),
         CoordinateOf(c.x), CoordinateOf(c.y))
  }

  /** restoreTreeData: the long key names back, with defaults for missing keys. */
  function RestoreTreeData(data: seq<Compact>): seq<Node> {
    seq(|data|, k requires 0 <= k < |data| => RestoreNode(data[k]))
  }

  function ConvertItem(item: Loose): Node {
    Node(OrEmpty(item.id), OrEmpty(item.parentId), OrEmpty(item.name), OrEmpty(item.description),
         OrEmpty(item.iconUrl), OrEmpty(item.url), CoordinateOf(item.x), CoordinateOf(item.y))
  }

  /** convertJsonToCsvFormat: every parsed record normalised to a Node. */
  function ConvertJsonToCsvFormat(items: seq<Loose>): seq<Node> {
    seq(|items|, k requires 0 <= k < |items| => ConvertItem(items[k]))
  }

  /** A Node seen as a parsed JSON record: every key present, coordinates numbers. */
  function AsLoose(node: Node): Loose {
    Loose(Some(node.id), Some(node.parentId), Some(node.name), Some(node.description),
          Some(node.iconUrl), Some(node.url), JsNumber(node.x), JsNumber(node.y))
  }

  function AsLooseAll(data: seq<Node>): seq<Loose> {
    seq(|data|, k requires 0 <= k < |data| => AsLoose(data[k]))
  }

  /** Restoring an optimized sheet gives the sheet back, record for record. */
  lemma RestoreAfterOptimize(data: seq<Node>)
    ensures RestoreTreeData(OptimizeTreeData(data)) == data
  {
    var r := RestoreTreeData(OptimizeTreeData(data));
    forall k | 0 <= k < |data|
      ensures r[k] == data[k]
    {
      NumberCoordinate(data[k].x);
      NumberCoordinate(data[k].y);
    }
  }

  /** Normalising records that are already Nodes changes nothing; in particular
      it leaves the output of restoreTreeData unchanged. */
  lemma ConvertKeepsNodes(data: seq<Node>)
    ensures ConvertJsonToCsvFormat(AsLooseAll(data)) == data
  {
    var r := ConvertJsonToCsvFormat(AsLooseAll(data));
    forall k | 0 <= k < |data|
      ensures r[k] == data[k]
    {
      NumberCoordinate(data[k].x);
      NumberCoordinate(data[k].y);
    }
  }

  /** The whole share path: a sheet written into a link and read back from it
      (optimize, restore, normalise) is the sheet itself. */
  lemma ShareRoundTrip(data: seq<Node>)
    ensures ConvertJsonToCsvFormat(AsLooseAll(RestoreTreeData(OptimizeTreeData(data)))) == data
  {
    RestoreAfterOptimize(data);
    ConvertKeepsNodes(data);
  }

  /** Restoring fills every missing text key with "" and every missing or
      non-numeric coordinate with 0, and keeps what is present. */
  lemma RestoreDefaults(c: Compact)
    ensures RestoreNode(c).id == (if c.i.Some? then c.i.value else "")
    ensures RestoreNode(c).parentId == (if c.p.Some? then c.p.value else "")
    ensures RestoreNode(c).name == (if c.n.Some? then c.n.value else "")
    ensures RestoreNode(c).description == (if c.d.Some? then c.d.value else "")
    ensures RestoreNode(c).iconUrl == (if c.c.Some? then c.c.value else "")
    ensures RestoreNode(c).url == (if c.u.Some? then c.u.value else "")
    ensures c.x == Absent ==> RestoreNode(c).x == 0
    ensures c.y == Absent ==> RestoreNode(c).y == 0
    ensures (c.x.JsString? && ParseInt(c.x.s) == None) ==> RestoreNode(c).x == 0
    ensures (c.y.JsString? && ParseInt(c.y.s) == None) ==> RestoreNode(c).y == 0
    ensures (c.x.JsString? && ParseInt(c.x.s).Some?) ==> RestoreNode(c).x == ParseInt(c.x.s).value
    ensures (c.y.JsString? && ParseInt(c.y.s).Some?) ==> RestoreNode(c).y == ParseInt(c.y.s).value
    ensures c.x.JsNumber? ==> RestoreNode(c).x == c.x.n
    ensures c.y.JsNumber? ==> RestoreNode(c).y == c.y.n
  {
    if c.x.JsNumber? {
      NumberCoordinate(c.x.n);
    }
    if c.y.JsNumber? {
      NumberCoordinate(c.y.n);
    }
  }

  /** A coordinate written as text with a trailing unit (say "120px") is read as
      its leading integer. */
  lemma StringCoordinate(n: int, rest: string)
    requires rest == [] || !IsDigit(rest[0])
    ensures CoordinateOf(JsString(Decimal(n) + rest)) == n
  {
    ParseIntDecimal(n, rest);
  }
}
