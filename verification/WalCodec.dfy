/** The bytes of the write-ahead log: fixed-width little-endian numbers and length-prefixed
    texts. A char stands for one byte. */
module WalCodec {
  import opened LittleEndian
  import opened Options

  // ----- fields -----

  datatype Shape = Number(width: nat) | Text
  datatype Field = N(value: nat) | T(text: string)
  datatype Read<T> = Read(value: T, rest: string)

  /** A text is its length in four bytes, cut to 32 bits, and that many of its bytes. */
  function EncodeField(shape: Shape, f: Field): string {
    match (shape, f)
    case (Number(w), N(n)) => Le(n, w)
    case (Text, T(s)) => var len := |s| % Pow256(4); Le(len, 4) + s[..len]
    case _ => ""
  }

  function ReadField(shape: Shape, s: string): (r: Option<Read<Field>>)
    ensures r.Some? ==> |r.value.rest| <= |s|
    ensures r.Some? && shape.Number? ==> |r.value.rest| == |s| - shape.width
  {
    match shape
    case Number(w) => if |s| < w then None else Some(Read(N(FromLe(s[..w])), s[w..]))
    case Text =>
      if |s| < 4 then None
      else
        var len := FromLe(s[..4]);
        if |s| - 4 < len then None else Some(Read(T(s[4..4 + len]), s[4 + len..]))
  }

  predicate Storable(shape: Shape, f: Field) {
    match (shape, f)
    case (Number(w), N(n)) => n < Pow256(w)
    case (Text, T(s)) => |s| < Pow256(4)
    case _ => false
  }

  lemma FieldRoundTrip(shape: Shape, f: Field, rest: string)
    requires Storable(shape, f)
    ensures ReadField(shape, EncodeField(shape, f) + rest) == Some(Read(f, rest))
  {
    hide Le, FromLe, Pow256;
    var s := EncodeField(shape, f) + rest;
    match (shape, f) {
      case (Number(w), N(n)) =>
        LeRoundTrip(n, w);
        assert s[..w] == Le(n, w) && s[w..] == rest;
      case (Text, T(t)) =>
        LeRoundTrip(|t|, 4);
        assert t[..|t|] == t;
        assert s == Le(|t|, 4) + t + rest;
        assert s[..4] == Le(|t|, 4) && s[4..4 + |t|] == t && s[4 + |t|..] == rest;
    }
  }

  lemma TornField(shape: Shape, f: Field, n: nat)
    requires Storable(shape, f) && n < |EncodeField(shape, f)|
    ensures ReadField(shape, EncodeField(shape, f)[..n]).None?
  {
    if shape.Text? {
      LeRoundTrip(|f.text|, 4);
      if n >= 4 {
        assert EncodeField(shape, f)[..n][..4] == Le(|f.text|, 4);
      }
    }
  }

  // ----- lists of fields -----

  function EncodeFields(shapes: seq<Shape>, fs: seq<Field>): string
    requires |shapes| == |fs|
  {
    if fs == [] then "" else EncodeField(shapes[0], fs[0]) + EncodeFields(shapes[1..], fs[1..])
  }

  function ReadFields(shapes: seq<Shape>, s: string): (r: Option<Read<seq<Field>>>)
    ensures r.Some? ==> |r.value.value| == |shapes| && |r.value.rest| <= |s|
    ensures r.Some? && shapes != [] && shapes[0].Number? ==> |r.value.rest| <= |s| - shapes[0].width
    decreases |shapes|
  {
    if shapes == [] then Some(Read([], s))
    else
      match ReadField(shapes[0], s)
      case None => None
      case Some(head) =>
        match ReadFields(shapes[1..], head.rest)
        case None => None
        case Some(tail) => Some(Read([head.value] + tail.value, tail.rest))
  }

  ghost predicate AllStorable(shapes: seq<Shape>, fs: seq<Field>) {
    |shapes| == |fs| && forall i :: 0 <= i < |fs| ==> Storable(shapes[i], fs[i])
  }

  lemma {:induction false} FieldsRoundTrip(shapes: seq<Shape>, fs: seq<Field>, rest: string)
    requires AllStorable(shapes, fs)
    ensures ReadFields(shapes, EncodeFields(shapes, fs) + rest) == Some(Read(fs, rest))
    decreases |fs|
  {
    hide ReadField, EncodeField, Storable;
    if fs == [] {
      assert "" + rest == rest;
    } else {
      var tail := EncodeFields(shapes[1..], fs[1..]);
      FieldRoundTrip(shapes[0], fs[0], tail + rest);
      FieldsRoundTrip(shapes[1..], fs[1..], rest);
      assert EncodeFields(shapes, fs) + rest == EncodeField(shapes[0], fs[0]) + (tail + rest);
      assert [fs[0]] + fs[1..] == fs;
    }
  }

  /** Any proper prefix of a list of fields is read as a failure. */
  lemma {:induction false} TornFields(shapes: seq<Shape>, fs: seq<Field>, n: nat)
    requires AllStorable(shapes, fs) && n < |EncodeFields(shapes, fs)|
    ensures ReadFields(shapes, EncodeFields(shapes, fs)[..n]).None?
    decreases |fs|
  {
    hide ReadField, EncodeField, Storable;
    var all := EncodeFields(shapes, fs);
    var head, tail := EncodeField(shapes[0], fs[0]), EncodeFields(shapes[1..], fs[1..]);
    if n < |head| {
      assert all[..n] == head[..n];
      TornField(shapes[0], fs[0], n);
    } else {
      assert all[..n] == head + tail[..n - |head|];
      FieldRoundTrip(shapes[0], fs[0], tail[..n - |head|]);
      TornFields(shapes[1..], fs[1..], n - |head|);
    }
  }

  // ----- records -----

  datatype LogKind = Begin | Commit | Abort | Update | Insert | Delete | Other(code: nat)

  function KindCode(k: LogKind): nat {
    match k
    case Begin => 0
    case Commit => 1
    case Abort => 2
    case Update => 3
    case Insert => 4
    case Delete => 5
    case Other(code) => code
  }

  /** The byte is cast to the enumeration; a byte without a name stays itself. */
  function KindOf(code: nat): LogKind {
    match code
    case 0 => Begin
    case 1 => Commit
    case 2 => Abort
    case 3 => Update
    case 4 => Insert
    case 5 => Delete
    case _ => Other(code)
  }

  datatype LogRecord = LogRecord(
    lsn: nat, prevLsn: nat, txnId: nat, kind: LogKind, table: string, key: string, oldValue: string, newValue: string)

  const LAYOUT: seq<Shape> := [Number(8), Number(8), Number(8), Number(1), Text, Text, Text, Text]

  function FieldsOf(r: LogRecord): (fs: seq<Field>)
    ensures |fs| == |LAYOUT|
  {
    [N(r.lsn), N(r.prevLsn), N(r.txnId), N(KindCode(r.kind)), T(r.table), T(r.key), T(r.oldValue), T(r.newValue)]
  }

  function NumberOf(f: Field): nat {
    if f.N? then f.value else 0
  }

  function TextOf(f: Field): string {
    if f.T? then f.text else ""
  }

  function RecordOf(fs: seq<Field>): LogRecord
    requires |fs| == |LAYOUT|
  {
    LogRecord(NumberOf(fs[0]), NumberOf(fs[1]), NumberOf(fs[2]), KindOf(NumberOf(fs[3])),
              TextOf(fs[4]), TextOf(fs[5]), TextOf(fs[6]), TextOf(fs[7]))
  }

  function Encode(r: LogRecord): string {
    EncodeFields(LAYOUT, FieldsOf(r))
  }

  function ReadRecord(s: string): (r: Option<Read<LogRecord>>)
    ensures r.Some? ==> |r.value.rest| < |s|
  {
    match ReadFields(LAYOUT, s)
    case None => None
    case Some(fields) => Some(Read(RecordOf(fields.value), fields.rest))
  }

  /** Numbers fit their widths, texts are shorter than 4 GiB, and no other kind has the byte of one of the
      six. */
  ghost predicate Fit(r: LogRecord) {
    AllStorable(LAYOUT, FieldsOf(r)) && (r.kind.Other? ==> r.kind.code > 5)
  }

  function EncodeAll(rs: seq<LogRecord>): string {
    if rs == [] then "" else Encode(rs[0]) + EncodeAll(rs[1..])
  }

  function ReadAll(s: string): seq<LogRecord>
    decreases |s|
  {
    match ReadRecord(s)
    case None => []
    case Some(r) => [r.value] + ReadAll(r.rest)
  }

  ghost predicate AllFit(rs: seq<LogRecord>) {
    forall r :: r in rs ==> Fit(r)
  }

  /** How many of the records lie wholly in the first n bytes. */
  function Whole(rs: seq<LogRecord>, n: nat): (k: nat)
    ensures k <= |rs|
  {
    if rs == [] || |Encode(rs[0])| > n then 0 else 1 + Whole(rs[1..], n - |Encode(rs[0])|)
  }

  lemma RecordRoundTrip(r: LogRecord, rest: string)
    requires Fit(r)
    ensures ReadRecord(Encode(r) + rest) == Some(Read(r, rest))
  {
    hide ReadFields, EncodeFields, AllStorable;
    FieldsRoundTrip(LAYOUT, FieldsOf(r), rest);
  }

  lemma TornRecord(r: LogRecord, n: nat)
    requires Fit(r) && n < |Encode(r)|
    ensures ReadRecord(Encode(r)[..n]).None?
  {
    hide ReadFields, EncodeFields, AllStorable;
    TornFields(LAYOUT, FieldsOf(r), n);
  }

  /** A log cut at any byte reads back as exactly the records that are whole. */
  lemma {:induction false} CutReadsWhole(rs: seq<LogRecord>, n: nat)
    requires AllFit(rs) && n <= |EncodeAll(rs)|
    ensures ReadAll(EncodeAll(rs)[..n]) == rs[..Whole(rs, n)]
    decreases |rs|
  {
    hide ReadRecord, Encode, Fit;
    var s := EncodeAll(rs)[..n];
    if rs == [] {
      NothingToRead();
    } else {
      var head := Encode(rs[0]);
      if n < |head| {
        assert s == head[..n];
        TornRecord(rs[0], n);
      } else {
        assert s == head + EncodeAll(rs[1..])[..n - |head|];
        RecordRoundTrip(rs[0], EncodeAll(rs[1..])[..n - |head|]);
        CutReadsWhole(rs[1..], n - |head|);
        assert rs[..Whole(rs, n)] == [rs[0]] + rs[1..][..Whole(rs, n) - 1];
      }
    }
  }

  lemma NothingToRead()
    ensures ReadRecord("").None?
  {
  }

  lemma EncodeNothing()
    ensures EncodeAll([]) == ""
  {
  }

  lemma EncodeFirst(r: LogRecord, rs: seq<LogRecord>)
    ensures EncodeAll([r] + rs) == Encode(r) + EncodeAll(rs)
  {
    hide Encode;
    assert ([r] + rs)[1..] == rs;
  }

  lemma {:induction false} EncodeAllConcat(a: seq<LogRecord>, b: seq<LogRecord>)
    ensures EncodeAll(a + b) == EncodeAll(a) + EncodeAll(b)
  {
    hide Encode, EncodeAll;
    if a == [] {
      assert a + b == b;
      EncodeNothing();
    } else {
      var rest := a[1..];
      EncodeAllConcat(rest, b);
      assert a + b == [a[0]] + (rest + b);
      EncodeFirst(a[0], rest + b);
      EncodeFirst(a[0], rest);
      assert a == [a[0]] + rest;
    }
  }

  lemma {:induction false} WholeOfAll(rs: seq<LogRecord>)
    ensures Whole(rs, |EncodeAll(rs)|) == |rs|
  {
    hide Encode;
    if rs != [] {
      WholeOfAll(rs[1..]);
    }
  }

  /** An uncut log reads back as it was written. */
  lemma ReadsBack(rs: seq<LogRecord>)
    requires AllFit(rs)
    ensures ReadAll(EncodeAll(rs)) == rs
  {
    CutReadsWhole(rs, |EncodeAll(rs)|);
    WholeOfAll(rs);
    assert EncodeAll(rs)[..|EncodeAll(rs)|] == EncodeAll(rs);
  }

  // ----- the bytes of a record -----

  /** A text is written after its length in four bytes. */
  function Counted(s: string): string {
    Le(|s|, 4) + s
  }

  /** What lies where: three numbers of eight bytes, the kind in one, and four texts, each after its
      length. */
  lemma RecordBytes(r: LogRecord)
    requires Fit(r)
    ensures var s := Encode(r);
      && |s| >= 25 && s[..8] == Le(r.lsn, 8) && s[8..16] == Le(r.prevLsn, 8) && s[16..24] == Le(r.txnId, 8)
      && s[24] as nat == (match r.kind
                          case Begin => 0
                          case Commit => 1
                          case Abort => 2
                          case Update => 3
                          case Insert => 4
                          case Delete => 5
                          case Other(code) => code)
      && s[25..] == Counted(r.table) + (Counted(r.key) + (Counted(r.oldValue) + Counted(r.newValue)))
  {
    hide Le, KindOf, Pow256;
    var fs := FieldsOf(r);
    assert AllStorable(LAYOUT, fs);
    assert Storable(LAYOUT[3], fs[3]) && Storable(LAYOUT[4], fs[4]) && Storable(LAYOUT[5], fs[5]);
    assert Storable(LAYOUT[6], fs[6]) && Storable(LAYOUT[7], fs[7]);
    OneByte(KindCode(r.kind));
    FieldsBytes(fs);
  }

  lemma OneByte(n: nat)
    requires n < Pow256(1)
    ensures Le(n, 1)[0] as nat == n
  {
    assert Pow256(1) == 256 * Pow256(0);
    LeDigit(n, 1, 0);
  }

  lemma TextBytes(s: string)
    requires |s| < Pow256(4)
    ensures EncodeField(Text, T(s)) == Counted(s)
  {
    hide Le, Pow256;
  }

  lemma FieldsBytes(fs: seq<Field>)
    requires |fs| == 8 && fs[0].N? && fs[1].N? && fs[2].N? && fs[3].N?
    requires forall i :: 4 <= i < 8 ==> fs[i].T? && |fs[i].text| < Pow256(4)
    ensures EncodeFields(LAYOUT, fs) ==
      Le(fs[0].value, 8) + (Le(fs[1].value, 8) + (Le(fs[2].value, 8) + (Le(fs[3].value, 1) +
      (Counted(fs[4].text) + (Counted(fs[5].text) + (Counted(fs[6].text) + Counted(fs[7].text)))))))
  {
    hide Le, Pow256, Counted, EncodeField, EncodeFields;
    forall i | 0 <= i < 8
      ensures EncodeFields(LAYOUT[i..], fs[i..]) == EncodeField(LAYOUT[i], fs[i]) + EncodeFields(LAYOUT[i + 1..], fs[i + 1..])
    {
      FirstField(LAYOUT[i..], fs[i..]);
      assert LAYOUT[i..][1..] == LAYOUT[i + 1..] && fs[i..][1..] == fs[i + 1..];
    }
    forall i | 4 <= i < 8
      ensures EncodeField(LAYOUT[i], fs[i]) == Counted(fs[i].text)
    {
      TextBytes(fs[i].text);
    }
    NumberBytes(fs[0].value, 8);
    NumberBytes(fs[1].value, 8);
    NumberBytes(fs[2].value, 8);
    NumberBytes(fs[3].value, 1);
    NoFields(LAYOUT[8..], fs[8..]);
    assert LAYOUT[0..] == LAYOUT && fs[0..] == fs;
    assert Counted(fs[7].text) + "" == Counted(fs[7].text);
  }

  lemma NumberBytes(n: nat, w: nat)
    ensures EncodeField(Number(w), N(n)) == Le(n, w)
  {
  }

  lemma FirstField(shapes: seq<Shape>, fs: seq<Field>)
    requires |shapes| == |fs| > 0
    ensures EncodeFields(shapes, fs) == EncodeField(shapes[0], fs[0]) + EncodeFields(shapes[1..], fs[1..])
  {
  }

  lemma NoFields(shapes: seq<Shape>, fs: seq<Field>)
    requires |shapes| == |fs| == 0
    ensures EncodeFields(shapes, fs) == ""
  {
  }
}
