/** The text form of a B-tree node on its page, and the proof that it round-trips whatever
    stale bytes the page held. */
module NodeCodec {
  import opened Characters
  import Decimal
  import opened Nodes
  import opened Options
  import opened Pages

  // ----- istream >> -----

  function SkipSpace(s: string): string {
    if s != [] && IsSpace(s[0]) then SkipSpace(s[1..]) else s
  }

  function WordLength(s: string): (n: nat)
    ensures n <= |s|
  {
    if s == [] || IsSpace(s[0]) then 0 else 1 + WordLength(s[1..])
  }

  function DigitCount(s: string): (n: nat)
    ensures n <= |s| && forall i :: 0 <= i < n ==> Decimal.IsDigit(s[i])
  {
    if s == [] || !Decimal.IsDigit(s[0]) then 0 else 1 + DigitCount(s[1..])
  }

  /** A word and what is left of the stream, or failure at its end. */
  function ReadWord(s: string): Option<(string, string)> {
    var t := SkipSpace(s);
    var n := WordLength(t);
    if n == 0 then None else Some((t[..n], t[n..]))
  }

  function ReadNumber(s: string): Option<(nat, string)> {
    var t := SkipSpace(s);
    var n := DigitCount(t);
    if n == 0 then None else Some((Decimal.Parse(t[..n]), t[n..]))
  }

  function ReadWords(s: string, n: nat): (r: Option<(seq<string>, string)>)
    ensures r.Some? ==> |r.value.0| == n
    decreases n
  {
    if n == 0 then Some(([], s))
    else
      match ReadWord(s)
      case None => None
      case Some((w, t)) =>
        match ReadWords(t, n - 1)
        case None => None
        case Some((ws, u)) => Some(([w] + ws, u))
  }

  function ReadNumbers(s: string, n: nat): (r: Option<(seq<nat>, string)>)
    ensures r.Some? ==> |r.value.0| == n
    decreases n
  {
    if n == 0 then Some(([], s))
    else
      match ReadNumber(s)
      case None => None
      case Some((x, t)) =>
        match ReadNumbers(t, n - 1)
        case None => None
        case Some((xs, u)) => Some(([x] + xs, u))
  }

  // ----- the two directions -----

  /** Each word on its own line. */
  function Lines(ws: seq<string>): string {
    if ws == [] then "" else ws[0] + "\n" + Lines(ws[1..])
  }

  function Formats(xs: seq<nat>): (r: seq<string>)
    ensures |r| == |xs|
  {
    seq(|xs|, i requires 0 <= i < |xs| => Decimal.Format(xs[i]))
  }

  function Keys(es: seq<Entry>): (r: seq<string>)
    ensures |r| == |es|
  {
    seq(|es|, i requires 0 <= i < |es| => es[i].key)
  }

  function Values(es: seq<Entry>): (r: seq<string>)
    ensures |r| == |es|
  {
    seq(|es|, i requires 0 <= i < |es| => es[i].value)
  }

  function Zip(ks: seq<string>, vs: seq<string>): (r: seq<Entry>)
    requires |ks| == |vs|
    ensures |r| == |ks|
  {
    seq(|ks|, i requires 0 <= i < |ks| => Entry(ks[i], vs[i]))
  }

  function Encode(n: Node): string {
    match n
    case LeafNode(es, next) =>
      Lines(["L", Decimal.Format(|es|)] + Keys(es) + Values(es) + [Decimal.Format(next)])
    case InnerNode(keys, children) =>
      Lines(["I", Decimal.Format(|keys|)] + keys + Formats(children))
  }

  /** None where the stream fails or keyCount exceeds the arrays; the source then leaves fields
      unset or writes out of bounds. */
  function Decode(s: string): Option<Node> {
    match ReadWord(s)
    case None => None
    case Some((kind, s1)) =>
      match ReadNumber(s1)
      case None => None
      case Some((n, s2)) =>
        if n > ORDER + 1 then None
        else
          match ReadWords(s2, n)
          case None => None
          case Some((keys, s3)) => if kind == "L" then DecodeLeaf(keys, s3) else DecodeInner(keys, s3)
  }

  function DecodeLeaf(keys: seq<string>, s: string): Option<Node> {
    match ReadWords(s, |keys|)
    case None => None
    case Some((values, t)) =>
      match ReadNumber(t)
      case None => None
      case Some((next, _)) => Some(LeafNode(Zip(keys, values), next))
  }

  function DecodeInner(keys: seq<string>, s: string): Option<Node> {
    match ReadNumbers(s, |keys| + 1)
    case None => None
    case Some((children, _)) => Some(InnerNode(keys, children))
  }

  /** The page body as a C string: up to the first NUL. */
  function CString(body: string): string {
    if body == [] || body[0] == '\0' then [] else [body[0]] + CString(body[1..])
  }

  /** memcpy of data to the front of the body, cut at its end. */
  function Overlay(body: string, data: string): (r: string)
    ensures |r| == |body|
  {
    if |data| <= |body| then data + body[|data|..] else data[..|body|]
  }

  // ----- what can be written -----

  /** A word that >> reads back: not empty, no white space, no NUL. */
  predicate Plain(w: string) {
    w != [] && forall c :: c in w ==> !IsSpace(c) && c != '\0'
  }

  /** A node whose texts can be read back, if the page holds them all. */
  predicate PlainNode(n: Node) {
    match n
    case LeafNode(es, next) => next <= INVALID_PAGE_ID && forall e :: e in es ==> Plain(e.key) && Plain(e.value)
    case InnerNode(keys, children) =>
      && |children| == |keys| + 1
      && (forall k :: k in keys ==> Plain(k)) && (forall c :: c in children ==> c <= INVALID_PAGE_ID)
  }

  /** The text of the node leaves room for its end in the body of a page. */
  predicate FitsPage(n: Node) {
    PlainNode(n) && Count(n) <= ORDER && |Encode(n)| < BODY_SIZE
  }

  /** Four pairs of at most MAX_PAIR bytes fit a page, 2 + 2 + 4 * (1015 + 2) + 11 = 4083 < 4084, and so
      do four keys of at most MAX_KEY bytes between five pages, 2 + 2 + 4 * (1005 + 1) + 5 * 11 = 4083. */
  const MAX_PAIR := 1015
  const MAX_KEY := 1005

  predicate KeyText(k: string) {
    Plain(k) && |k| <= MAX_KEY
  }

  predicate PairText(e: Entry) {
    KeyText(e.key) && Plain(e.value) && |e.key| + |e.value| <= MAX_PAIR
  }

  predicate HasText(n: Node) {
    match n
    case LeafNode(es, next) => next <= INVALID_PAGE_ID && forall e :: e in es ==> PairText(e)
    case InnerNode(keys, children) =>
      && |children| == |keys| + 1
      && (forall k :: k in keys ==> KeyText(k)) && (forall c :: c in children ==> c <= INVALID_PAGE_ID)
  }

  predicate Writable(n: Node) {
    HasText(n) && Count(n) <= ORDER
  }

  // ----- round trip -----

  lemma {:induction false} WordThenSpace(w: string, t: string)
    requires forall c :: c in w ==> !IsSpace(c)
    requires t != [] && IsSpace(t[0])
    ensures WordLength(w + t) == |w|
  {
    if w == [] {
      assert w + t == t;
    } else {
      assert (w + t)[1..] == w[1..] + t;
      WordThenSpace(w[1..], t);
    }
  }

  lemma {:induction false} DigitsThenSpace(w: string, t: string)
    requires forall c :: c in w ==> Decimal.IsDigit(c)
    requires t != [] && IsSpace(t[0])
    ensures DigitCount(w + t) == |w|
  {
    if w == [] {
      assert w + t == t;
    } else {
      assert (w + t)[1..] == w[1..] + t;
      DigitsThenSpace(w[1..], t);
    }
  }

  lemma SkipNewline(s: string)
    requires s != [] && !IsSpace(s[0])
    ensures SkipSpace("\n" + s) == s == SkipSpace(s)
  {
    assert ("\n" + s)[1..] == s;
  }

  /** The stream just before a line, at the start of the text or at the end of the last line. */
  ghost predicate At(s: string, t: string) {
    s == t || s == "\n" + t
  }

  lemma ReadsWord(s: string, w: string, t: string)
    requires Plain(w) && At(s, w + "\n" + t)
    ensures ReadWord(s) == Some((w, "\n" + t))
  {
    var u := w + "\n" + t;
    assert u == w + ("\n" + t);
    assert u[0] == w[0] && w[0] in w;
    SkipNewline(u);
    WordThenSpace(w, "\n" + t);
    assert u[..|w|] == w && u[|w|..] == "\n" + t;
  }

  lemma FormatPlain(n: nat)
    ensures Plain(Decimal.Format(n))
  {
  }

  lemma ReadsNumber(s: string, n: nat, t: string)
    requires At(s, Decimal.Format(n) + "\n" + t)
    ensures ReadNumber(s) == Some((n, "\n" + t))
  {
    var w := Decimal.Format(n);
    FormatPlain(n);
    var u := w + "\n" + t;
    assert u == w + ("\n" + t);
    assert u[0] == w[0] && w[0] in w;
    SkipNewline(u);
    DigitsThenSpace(w, "\n" + t);
    assert u[..|w|] == w && u[|w|..] == "\n" + t;
    Decimal.RoundTrip(n);
  }

  lemma {:induction false} LinesConcat(a: seq<string>, b: seq<string>)
    ensures Lines(a + b) == Lines(a) + Lines(b)
  {
    if a == [] {
      assert a + b == b;
    } else {
      LinesConcat(a[1..], b);
      assert (a + b)[1..] == a[1..] + b;
    }
  }

  lemma {:induction false} ReadsWords(s: string, ws: seq<string>, t: string)
    requires forall w :: w in ws ==> Plain(w)
    requires s == "\n" + (Lines(ws) + t)
    ensures ReadWords(s, |ws|) == Some((ws, "\n" + t))
    decreases |ws|
  {
    if ws == [] {
      assert Lines(ws) + t == t;
    } else {
      var u := Lines(ws[1..]) + t;
      assert Lines(ws) + t == ws[0] + "\n" + u;
      ReadsWord(s, ws[0], u);
      ReadsWords("\n" + u, ws[1..], t);
      assert [ws[0]] + ws[1..] == ws;
    }
  }

  lemma {:induction false} ReadsNumbers(s: string, xs: seq<nat>, t: string)
    requires s == "\n" + (Lines(Formats(xs)) + t)
    ensures ReadNumbers(s, |xs|) == Some((xs, "\n" + t))
    decreases |xs|
  {
    if xs == [] {
      assert Lines(Formats(xs)) + t == t;
    } else {
      assert Formats(xs)[1..] == Formats(xs[1..]);
      var u := Lines(Formats(xs[1..])) + t;
      assert Lines(Formats(xs)) + t == Decimal.Format(xs[0]) + "\n" + u;
      ReadsNumber(s, xs[0], u);
      ReadsNumbers("\n" + u, xs[1..], t);
      assert [xs[0]] + xs[1..] == xs;
    }
  }

  lemma LinesTwo(a: string, b: string)
    ensures Lines([a, b]) == a + "\n" + (b + "\n")
  {
    assert [a, b][1..] == [b] && [b][1..] == [];
    assert Lines([b]) == b + "\n" + "";
  }

  lemma LinesOne(a: string)
    ensures Lines([a]) == a + "\n"
  {
    assert [a][1..] == [];
  }

  lemma HeaderText(kind: string, n: string, keys: string, rest: string)
    ensures Lines([kind, n]) + keys + rest == kind + "\n" + (n + "\n" + (keys + rest))
  {
    LinesTwo(kind, n);
  }

  /** The two header words of a node text, and its keys, are read back. */
  lemma ReadsHeader(s: string, kind: string, keys: seq<string>, rest: string)
    requires Plain(kind) && |keys| <= ORDER + 1 && forall k :: k in keys ==> Plain(k)
    requires s == kind + "\n" + (Decimal.Format(|keys|) + "\n" + (Lines(keys) + rest))
    ensures Decode(s) == if kind == "L" then DecodeLeaf(keys, "\n" + rest) else DecodeInner(keys, "\n" + rest)
  {
    hide ReadWord, ReadNumber, ReadWords, Lines, DecodeLeaf, DecodeInner, Plain, Decimal.Format;
    var u := Lines(keys) + rest;
    var v := Decimal.Format(|keys|) + "\n" + u;
    ReadsWord(s, kind, v);
    ReadsNumber("\n" + v, |keys|, u);
    ReadsWords("\n" + u, keys, rest);
  }

  lemma ReadsLeaf(es: seq<Entry>, next: PageId, tail: string)
    requires PlainNode(LeafNode(es, next)) && |es| <= ORDER + 1
    ensures Decode(Encode(LeafNode(es, next)) + tail) == Some(LeafNode(es, next))
  {
    hide ReadWord, ReadNumber, ReadWords, Lines, Decode;
    var head, last := ["L", Decimal.Format(|es|)], Decimal.Format(next);
    LinesConcat(head + Keys(es) + Values(es), [last]);
    LinesConcat(head + Keys(es), Values(es));
    LinesConcat(head, Keys(es));
    LinesOne(last);
    var u := last + "\n" + tail;
    var rest := Lines(Values(es)) + u;
    assert Encode(LeafNode(es, next)) + tail == Lines(head) + Lines(Keys(es)) + rest;
    HeaderText("L", Decimal.Format(|es|), Lines(Keys(es)), rest);
    ReadsHeader(Encode(LeafNode(es, next)) + tail, "L", Keys(es), rest);
    ReadsWords("\n" + rest, Values(es), u);
    ReadsNumber("\n" + u, next, tail);
    assert Zip(Keys(es), Values(es)) == es;
  }

  lemma ReadsInner(keys: seq<string>, children: seq<PageId>, tail: string)
    requires PlainNode(InnerNode(keys, children)) && |keys| <= ORDER + 1
    ensures Decode(Encode(InnerNode(keys, children)) + tail) == Some(InnerNode(keys, children))
  {
    hide ReadWord, ReadNumber, ReadWords, ReadNumbers, Lines, Decode;
    var head := ["I", Decimal.Format(|keys|)];
    LinesConcat(head + keys, Formats(children));
    LinesConcat(head, keys);
    var rest := Lines(Formats(children)) + tail;
    assert Encode(InnerNode(keys, children)) + tail == Lines(head) + Lines(keys) + rest;
    HeaderText("I", Decimal.Format(|keys|), Lines(keys), rest);
    ReadsHeader(Encode(InnerNode(keys, children)) + tail, "I", keys, rest);
    ReadsNumbers("\n" + rest, children, tail);
  }

  lemma {:induction false} CStringConcat(a: string, b: string)
    requires '\0' !in a
    ensures CString(a + b) == a + CString(b)
  {
    if a == [] {
      assert a + b == b;
    } else {
      assert a[0] in a;
      CStringConcat(a[1..], b);
      assert a + b == [a[0]] + (a[1..] + b) && (a + b)[1..] == a[1..] + b;
    }
  }

  lemma {:induction false} LinesNoNul(ws: seq<string>)
    requires forall w :: w in ws ==> Plain(w)
    ensures '\0' !in Lines(ws)
  {
    if ws != [] {
      assert Plain(ws[0]);
      LinesNoNul(ws[1..]);
      assert Lines(ws) == ws[0] + "\n" + Lines(ws[1..]);
    }
  }

  lemma {:induction false} LinesLength(ws: seq<string>, most: nat)
    requires forall w :: w in ws ==> |w| <= most
    ensures |Lines(ws)| <= |ws| * (most + 1)
  {
    if ws == [] {
    } else {
      LinesLength(ws[1..], most);
      assert |ws| * (most + 1) == (most + 1) + |ws[1..]| * (most + 1);
    }
  }

  lemma HeaderLength(kind: string, n: nat)
    requires |kind| == 1 && n < 10
    ensures |Lines([kind, Decimal.Format(n)])| == 4
  {
    LinesTwo(kind, Decimal.Format(n));
  }

  lemma {:induction false} PairsLength(es: seq<Entry>, most: nat)
    requires forall e :: e in es ==> |e.key| + |e.value| <= most
    ensures |Lines(Keys(es))| + |Lines(Values(es))| <= |es| * (most + 2)
  {
    if es == [] {
    } else {
      PairsLength(es[1..], most);
      assert Keys(es)[1..] == Keys(es[1..]) && Values(es)[1..] == Values(es[1..]);
      assert |es| * (most + 2) == (most + 2) + |es[1..]| * (most + 2);
    }
  }

  lemma LeafLength(es: seq<Entry>, next: PageId)
    requires |es| < 10
    ensures |Encode(LeafNode(es, next))| == 5 + |Lines(Keys(es))| + |Lines(Values(es))| + |Decimal.Format(next)|
  {
    hide Lines, Decimal.Format;
    var head, last := ["L", Decimal.Format(|es|)], Decimal.Format(next);
    LinesConcat(head + Keys(es) + Values(es), [last]);
    LinesConcat(head + Keys(es), Values(es));
    LinesConcat(head, Keys(es));
    HeaderLength("L", |es|);
    LinesOne(last);
  }

  lemma InnerLength(keys: seq<string>, children: seq<PageId>)
    requires |keys| < 10
    ensures |Encode(InnerNode(keys, children))| == 4 + |Lines(keys)| + |Lines(Formats(children))|
  {
    hide Lines, Decimal.Format;
    var head := ["I", Decimal.Format(|keys|)];
    LinesConcat(head + keys, Formats(children));
    LinesConcat(head, keys);
    HeaderLength("I", |keys|);
  }

  lemma FormatsPlain(xs: seq<nat>)
    ensures forall w :: w in Formats(xs) ==> Plain(w)
  {
    forall w | w in Formats(xs)
      ensures Plain(w)
    {
      var i :| 0 <= i < |xs| && w == Decimal.Format(xs[i]);
      FormatPlain(xs[i]);
    }
  }

  lemma EncodeNoNul(n: Node)
    requires PlainNode(n)
    ensures '\0' !in Encode(n)
  {
    hide Lines, Decimal.Format;
    FormatPlain(Count(n));
    match n
    case LeafNode(es, next) =>
      FormatPlain(next);
      LinesNoNul(["L", Decimal.Format(|es|)] + Keys(es) + Values(es) + [Decimal.Format(next)]);
    case InnerNode(keys, children) =>
      FormatsPlain(children);
      LinesNoNul(["I", Decimal.Format(|keys|)] + keys + Formats(children));
  }

  /** The bounds on single pairs and keys keep a whole node shorter than a page body. */
  lemma EncodeFits(n: Node)
    requires Writable(n)
    ensures FitsPage(n)
  {
    hide Lines, Plain, Decimal.Format, Encode;
    match n
    case LeafNode(es, next) =>
      assert forall e :: e in es ==> PairText(e);
      LeafLength(es, next);
      PairsLength(es, MAX_PAIR);
      Decimal.PageIdDigits(next);
    case InnerNode(keys, children) =>
      assert forall k :: k in keys ==> KeyText(k);
      InnerLength(keys, children);
      LinesLength(keys, MAX_KEY);
      forall w | w in Formats(children)
        ensures |w| <= 10
      {
        var i :| 0 <= i < |children| && w == Decimal.Format(children[i]);
        assert children[i] in children;
        Decimal.PageIdDigits(children[i]);
      }
      LinesLength(Formats(children), 10);
  }

  /** Saving a node over any page body and loading it gives the node, whenever its text is shorter
      than the body; and the last byte of the body keeps its NUL, so a loaded text always ends. */
  lemma SaveThenLoad(n: Node, body: string)
    requires PlainNode(n) && Count(n) <= ORDER + 1 && |body| == BODY_SIZE && |Encode(n)| < BODY_SIZE
    ensures Decode(CString(Overlay(body, Encode(n)))) == Some(n)
    ensures Overlay(body, Encode(n))[BODY_SIZE - 1] == body[BODY_SIZE - 1]
  {
    hide Encode, Decode, CString, PlainNode;
    EncodeNoNul(n);
    var text := Encode(n);
    CStringConcat(text, body[|text|..]);
    match n
    case LeafNode(es, next) => ReadsLeaf(es, next, CString(body[|text|..]));
    case InnerNode(keys, children) => ReadsInner(keys, children, CString(body[|text|..]));
  }

  // ----- texts that the page cuts -----

  /** The stream is at its end or before something that continues no number. */
  ghost predicate PastDigits(s: string) {
    s == [] || !Decimal.IsDigit(s[0])
  }

  ghost predicate AtSpace(s: string) {
    s == [] || IsSpace(s[0])
  }

  lemma {:induction false} SkipShorter(s: string)
    ensures |SkipSpace(s)| <= |s| && (s != [] && IsSpace(s[0]) ==> |SkipSpace(s)| < |s|)
  {
    if s != [] && IsSpace(s[0]) {
      SkipShorter(s[1..]);
    }
  }

  lemma {:induction false} WordEnds(s: string)
    ensures AtSpace(s[WordLength(s)..])
  {
    if s != [] && !IsSpace(s[0]) {
      WordEnds(s[1..]);
    }
  }

  lemma {:induction false} DigitsEnd(s: string)
    ensures PastDigits(s[DigitCount(s)..])
  {
    if s != [] && Decimal.IsDigit(s[0]) {
      DigitsEnd(s[1..]);
    }
  }

  /** Words read cost as many bytes as their lines. */
  lemma {:induction false} WordsCost(s: string, n: nat)
    requires AtSpace(s) && ReadWords(s, n).Some?
    ensures var (ws, t) := ReadWords(s, n).value; AtSpace(t) && |Lines(ws)| + |t| <= |s|
    decreases n
  {
    if n > 0 {
      SkipShorter(s);
      var u := SkipSpace(s);
      WordEnds(u);
      var (w, t) := ReadWord(s).value;
      WordsCost(t, n - 1);
      var ws := ReadWords(t, n - 1).value.0;
      assert ([w] + ws)[1..] == ws;
    }
  }

  lemma NumberCost(s: string)
    requires PastDigits(s) && ReadNumber(s).Some?
    ensures var (x, t) := ReadNumber(s).value; PastDigits(t) && |Decimal.Format(x)| + 1 + |t| <= |s|
  {
    hide Decimal.Format, Decimal.Parse;
    SkipShorter(s);
    var u := SkipSpace(s);
    DigitsEnd(u);
    Decimal.FormatShortest(u[..DigitCount(u)]);
  }

  lemma {:induction false} NumbersCost(s: string, n: nat)
    requires PastDigits(s) && ReadNumbers(s, n).Some?
    ensures var (xs, t) := ReadNumbers(s, n).value; |Lines(Formats(xs))| + |t| <= |s|
    decreases n
  {
    hide ReadNumber, Decimal.Format;
    if n > 0 {
      NumberCost(s);
      var (x, t) := ReadNumber(s).value;
      NumbersCost(t, n - 1);
      var xs := ReadNumbers(t, n - 1).value.0;
      assert Formats([x] + xs)[1..] == Formats(xs);
    }
  }

  /** The header is all there: what is read after it costs at least the rest of the node's text,
      up to its last newline. */
  lemma CutHeader(kind: string, n: nat, v: string)
    requires (kind == "L" || kind == "I") && n <= ORDER + 1
    ensures var s := kind + "\n" + (Decimal.Format(n) + "\n" + v);
      Decode(s) == match ReadWords("\n" + v, n)
                   case None => None
                   case Some((keys, t)) => if kind == "L" then DecodeLeaf(keys, t) else DecodeInner(keys, t)
  {
    hide ReadWord, ReadNumber, ReadWords, DecodeLeaf, DecodeInner, Decimal.Format;
    var u := Decimal.Format(n) + "\n" + v;
    ReadsWord(kind + "\n" + u, kind, u);
    ReadsNumber("\n" + u, n, v);
  }

  lemma CutBody(n: Node, v: string)
    requires PlainNode(n) && Count(n) <= ORDER + 1
    requires Decode((if n.LeafNode? then "L" else "I") + "\n" + (Decimal.Format(Count(n)) + "\n" + v)) == Some(n)
    ensures |v| + 5 >= |Encode(n)|
  {
    hide ReadWord, ReadNumber, ReadWords, ReadNumbers, Lines, Formats, Decimal.Format, Decode;
    var kind := if n.LeafNode? then "L" else "I";
    CutHeader(kind, Count(n), v);
    WordsCost("\n" + v, Count(n));
    var (keys, t) := ReadWords("\n" + v, Count(n)).value;
    if n.LeafNode? {
      WordsCost(t, Count(n));
      var (values, u) := ReadWords(t, Count(n)).value;
      NumberCost(u);
      assert Keys(n.entries) == keys && Values(n.entries) == values;
      LeafLength(n.entries, n.next);
    } else {
      NumbersCost(t, Count(n) + 1);
      InnerLength(n.keys, n.children);
    }
  }

  lemma EncodeHead(n: Node)
    requires PlainNode(n) && Count(n) <= ORDER + 1
    ensures |Encode(n)| >= 4
    ensures Encode(n) == (if n.LeafNode? then "L" else "I") + "\n" + (Decimal.Format(Count(n)) + "\n" + Encode(n)[4..])
  {
    hide Lines, Decimal.Format, Plain;
    var kind := if n.LeafNode? then "L" else "I";
    var head := [kind, Decimal.Format(Count(n))];
    var rest := if n.LeafNode? then Keys(n.entries) + Values(n.entries) + [Decimal.Format(n.next)]
                else n.keys + Formats(n.children);
    LinesConcat(head, rest);
    HeaderLength(kind, Count(n));
    LinesTwo(kind, Decimal.Format(Count(n)));
    if n.LeafNode? {
      assert head + rest == head + Keys(n.entries) + Values(n.entries) + [Decimal.Format(n.next)];
    } else {
      assert head + rest == head + n.keys + Formats(n.children);
    }
  }

  /** A text cut short of its last word's end is some other node, or none. */
  lemma CutIsLost(n: Node, k: nat)
    requires PlainNode(n) && Count(n) <= ORDER + 1
    requires 4 <= k < |Encode(n)| - 1
    ensures Decode(Encode(n)[..k]) != Some(n)
  {
    hide Encode, Decode, PlainNode, Decimal.Format;
    EncodeHead(n);
    var v := Encode(n)[4..k];
    if Decode(Encode(n)[..k]) == Some(n) {
      assert Encode(n)[..k] == (if n.LeafNode? then "L" else "I") + "\n" + (Decimal.Format(Count(n)) + "\n" + v);
      CutBody(n, v);
      assert false;
    }
  }

  lemma {:induction false} CStringAll(a: string)
    requires '\0' !in a
    ensures CString(a) == a
  {
    CStringConcat(a, []);
    assert a + [] == a;
  }

  /** Exactly the nodes whose text is shorter than the body leave a terminated text that reads back;
      a text more than one byte longer than the body is read as something else. */
  lemma SaveThenLoadIff(n: Node, body: string)
    requires PlainNode(n) && Count(n) <= ORDER + 1 && |body| == BODY_SIZE && body[BODY_SIZE - 1] == '\0'
    ensures var after := Overlay(body, Encode(n));
      && (after[BODY_SIZE - 1] == '\0' && Decode(CString(after)) == Some(n) <==> |Encode(n)| < BODY_SIZE)
      && (|Encode(n)| > BODY_SIZE + 1 ==> Decode(CString(after)) != Some(n))
  {
    hide Encode, Decode, CString, PlainNode;
    EncodeNoNul(n);
    if |Encode(n)| < BODY_SIZE {
      SaveThenLoad(n, body);
    } else {
      var after := Encode(n)[..BODY_SIZE];
      assert after[BODY_SIZE - 1] in Encode(n);
      CStringAll(after);
      if |Encode(n)| > BODY_SIZE + 1 {
        CutIsLost(n, BODY_SIZE);
      }
    }
  }

  /** The page of a tree's first pair keeps it iff key and value have fewer than 4067 bytes together. */
  lemma FirstPairIff(e: Entry, body: string)
    requires Plain(e.key) && Plain(e.value) && |body| == BODY_SIZE && body[BODY_SIZE - 1] == '\0'
    ensures var n := LeafNode([e], INVALID_PAGE_ID);
      var after := Overlay(body, Encode(n));
      after[BODY_SIZE - 1] == '\0' && Decode(CString(after)) == Some(n) <==> |e.key| + |e.value| < 4067
  {
    hide Plain, Encode, Decode, CString, Lines, Overlay, Decimal.Format;
    var n := LeafNode([e], INVALID_PAGE_ID);
    SaveThenLoadIff(n, body);
    LeafLength([e], INVALID_PAGE_ID);
    assert Keys([e]) == [e.key] && Values([e]) == [e.value];
    LinesOne(e.key);
    LinesOne(e.value);
    Decimal.LastPageIdDigits();
  }
}
