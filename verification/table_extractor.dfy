/**
 * The row-assembly state machine that getStockHistoricalData runs over the
 * HTML token stream of a historical-data response (historical.go and its
 * older copy stocks.go run the very same loops).
 *
 * Scan is the state machine written as a function of the remaining tokens,
 * the six-slot row buffer and the column cursor k; Extract adds the seek
 * for "tbody" and the fixed header row.  ExtractTable is the loop itself,
 * proved equal to Extract, and the lemmas below say what Extract yields.
 */
module TableExtractor {
  import opened Wrappers
  import opened GoLibrary
  import opened HtmlToken
  import Timestamp

  type Row = seq<string>

  /** The length of the row buffer, make([]string, 6). */
  const RowWidth: nat := 6

  /** The only attribute that marks a data cell. */
  const RealValueKey: string := "data-real-value"

  /** The two ways the extraction panics. */
  datatype Panic =
    | BadEpoch(text: string)          // strconv.ParseInt failed on the first cell of a row
    | CellIndexOutOfRange(index: nat) // row[k] with k >= 6

  function BlankRow(): (r: Row)
    ensures |r| == RowWidth && forall c :: 0 <= c < RowWidth ==> r[c] == ""
  {
    seq(RowWidth, _ => "")
  }

  predicate IsCellStart(t: Token) {
    t.kind == StartTagToken && t.data == "td"
  }

  predicate IsRowEnd(t: Token) {
    t.kind == EndTagToken && t.data == "tr"
  }

  predicate IsTableEnd(t: Token) {
    t.kind == EndTagToken && t.data == "table"
  }

  // ---------------------------------------------------------------------
  // One cell
  // ---------------------------------------------------------------------

  /**
   * What a data-real-value attribute puts into column k: the trimmed text,
   * except in column 0 where the text is epoch seconds rendered as a timestamp.
   */
  function CellValue(k: nat, raw: string): Result<string, Panic> {
    var v := TrimSpace(raw);
    if k == 0 then
      match ParseInt(v)
      case None => Err(BadEpoch(v))
      case Some(secs) => Ok(Timestamp.FormatUnix(secs))
    else Ok(v)
  }

  /**
   * Column 0 reads back any 64-bit epoch written in decimal, with any white
   * space around it, as that epoch's timestamp.
   */
  lemma EpochCellValue(pre: string, secs: int, post: string)
    requires AllSpace(pre) && AllSpace(post)
    requires MinInt64 <= secs <= MaxInt64
    ensures CellValue(0, pre + FormatInt(secs) + post) == Ok(Timestamp.FormatUnix(secs))
  {
    var text := FormatInt(secs);
    assert IsDigit(text[|text| - 1]);
    TrimSpaceOfPadded(pre, text, post);
    ParseIntOfFormatInt(secs);
  }

  /** The value of the last data-real-value attribute in `attrs`, if there is one. */
  function LastRealValue(attrs: seq<Attribute>): Option<string>
    decreases |attrs|
  {
    if attrs == [] then None
    else match LastRealValue(attrs[1..])
      case Some(v) => Some(v)
      case None => if attrs[0].key == RealValueKey then Some(attrs[0].val) else None
  }

  /** An attribute that makes the loop over a cell's attributes panic in column k of a row of `width` slots. */
  predicate IsFatal(width: nat, k: nat, a: Attribute) {
    a.key == RealValueKey && (k >= width || CellValue(k, a.val).Err?)
  }

  /**
   * The loop over the attributes of one <td> start tag, in column k.  Only
   * slot k can change; it ends up holding the value of the last
   * data-real-value attribute, and stays as it was when there is none.
   */
  function FillCell(row: Row, k: nat, attrs: seq<Attribute>): (r: Result<Row, Panic>)
    ensures r.Ok? ==> |r.value| == |row|
    ensures r.Ok? ==> forall c :: 0 <= c < |row| && c != k ==> r.value[c] == row[c]
    ensures r.Ok? && LastRealValue(attrs).None? ==> r.value == row
    ensures r.Ok? && LastRealValue(attrs).Some? ==>
              k < |row| && CellValue(k, LastRealValue(attrs).value) == Ok(r.value[k])
    decreases |attrs|
  {
    if attrs == [] then Ok(row)
    else if attrs[0].key != RealValueKey then FillCell(row, k, attrs[1..])
    else match CellValue(k, attrs[0].val)
      case Err(p) => Err(p)
      case Ok(v) => if k < |row| then FillCell(row[k := v], k, attrs[1..]) else Err(CellIndexOutOfRange(k))
  }

  /** A cell panics exactly when one of its data-real-value attributes is fatal in its column. */
  lemma {:induction false} FillCellFails(row: Row, k: nat, attrs: seq<Attribute>)
    ensures FillCell(row, k, attrs).Err? <==>
              exists i :: 0 <= i < |attrs| && IsFatal(|row|, k, attrs[i])
    decreases |attrs|
  {
    if attrs != [] {
      var row' := if attrs[0].key == RealValueKey && CellValue(k, attrs[0].val).Ok? && k < |row|
                  then row[k := CellValue(k, attrs[0].val).value] else row;
      FillCellFails(row', k, attrs[1..]);
      if exists i :: 0 <= i < |attrs| && IsFatal(|row|, k, attrs[i]) {
        var i :| 0 <= i < |attrs| && IsFatal(|row|, k, attrs[i]);
        if i > 0 {
          assert attrs[1..][i - 1] == attrs[i];
        }
      }
    }
  }

  // ---------------------------------------------------------------------
  // The state machine
  // ---------------------------------------------------------------------

  /** The rows `rows` followed by those of `rest`, unless `rest` panicked. */
  function Prepend(rows: seq<Row>, rest: Result<seq<Row>, Panic>): Result<seq<Row>, Panic> {
    match rest
    case Ok(more) => Ok(rows + more)
    case Err(p) => Err(p)
  }

  lemma PrependPrepend(a: seq<Row>, b: seq<Row>, rest: Result<seq<Row>, Panic>)
    ensures Prepend(a, Prepend(b, rest)) == Prepend(a + b, rest)
  {
    if rest.Ok? {
      assert a + (b + rest.value) == a + b + rest.value;
    }
  }

  /**
   * The rows appended while the row-assembly loop consumes `ts`, starting
   * with buffer `row` and cursor `k`.  A <td> start tag fills slot k and
   * moves the cursor on, </tr> appends the buffer and starts a blank one at
   * column 0, </table> or the end of the tokens stops and drops the buffer.
   */
  function Scan(ts: seq<Token>, row: Row, k: nat): Result<seq<Row>, Panic>
    decreases |ts|
  {
    if ts == [] then Ok([])
    else
      var t := ts[0];
      if IsCellStart(t) then
        match FillCell(row, k, t.attrs)
        case Err(p) => Err(p)
        case Ok(row') => Scan(ts[1..], row', k + 1)
      else if IsRowEnd(t) then Prepend([row], Scan(ts[1..], BlankRow(), 0))
      else if IsTableEnd(t) then Ok([])
      else Scan(ts[1..], row, k)
  }

  /** The position of the first token whose data is "tbody", of any kind; |ts| when there is none. */
  function FirstTbody(ts: seq<Token>): (i: nat)
    ensures i <= |ts|
    ensures forall j :: 0 <= j < i ==> ts[j].data != "tbody"
    ensures i < |ts| ==> ts[i].data == "tbody"
    decreases |ts|
  {
    if ts == [] || ts[0].data == "tbody" then 0 else 1 + FirstTbody(ts[1..])
  }

  /** The tokens the row-assembly loop reads: those after the first "tbody" token. */
  function Body(ts: seq<Token>): seq<Token> {
    var i := FirstTbody(ts);
    if i < |ts| then ts[i + 1..] else []
  }

  /** The table extracted from a whole token stream, headed by `header`. */
  function Extract(header: Row, ts: seq<Token>): Result<seq<Row>, Panic> {
    Prepend([header], Scan(Body(ts), BlankRow(), 0))
  }

  // ---------------------------------------------------------------------
  // The loop
  // ---------------------------------------------------------------------

  /**
   * The loop over the attributes of one <td> start tag, writing into the
   * row buffer in place; it reports the panic that ends the loop, if any.
   */
  method FillCellInPlace(row: array<string>, k: nat, attrs: seq<Attribute>) returns (panic: Option<Panic>)
    modifies row
    ensures FillCell(old(row[..]), k, attrs).Err? ==> panic == Some(FillCell(old(row[..]), k, attrs).error)
    ensures FillCell(old(row[..]), k, attrs).Ok? ==> panic.None? && row[..] == FillCell(old(row[..]), k, attrs).value
  {
    var j := 0;
    while j < |attrs|
      invariant 0 <= j <= |attrs|
      invariant FillCell(old(row[..]), k, attrs) == FillCell(row[..], k, attrs[j..])
    {
      var attr := attrs[j];
      assert attrs[j..][0] == attr && attrs[j..][1..] == attrs[j + 1..];
      if attr.key == RealValueKey {
        var v := TrimSpace(attr.val);
        if k == 0 {
          var secs := ParseInt(v);
          if secs.None? {
            return Some(BadEpoch(v));
          }
          v := Timestamp.FormatUnix(secs.value);
        }
        if k >= row.Length {
          return Some(CellIndexOutOfRange(k));
        }
        row[k] := v;
      }
      j := j + 1;
    }
    return None;
  }

  /** The step of the state machine at a <td> start tag. */
  lemma ScanCellStep(ts: seq<Token>, row: Row, k: nat)
    requires ts != [] && IsCellStart(ts[0])
    ensures FillCell(row, k, ts[0].attrs).Err? ==> Scan(ts, row, k) == Err(FillCell(row, k, ts[0].attrs).error)
    ensures FillCell(row, k, ts[0].attrs).Ok? ==> Scan(ts, row, k) == Scan(ts[1..], FillCell(row, k, ts[0].attrs).value, k + 1)
  {
  }

  /**
   * The row-assembly loop: a six-slot buffer filled in place, appended at
   * each </tr>, until </table> or the end of the tokens.  The rows it
   * appends are exactly Scan's.
   */
  method AssembleRows(tokens: seq<Token>) returns (res: Result<seq<Row>, Panic>)
    ensures res == Scan(tokens, BlankRow(), 0)
  {
    var records: seq<Row> := [];
    var row := new string[RowWidth](_ => "");
    var k: nat := 0;
    assert row[..] == BlankRow();

    var i := 0;
    var done := false;
    assert tokens[i..] == tokens;
    assert Prepend(records, Scan(tokens, BlankRow(), 0)) == Scan(tokens, BlankRow(), 0) by {
      var rest := Scan(tokens, BlankRow(), 0);
      if rest.Ok? {
        assert [] + rest.value == rest.value;
      }
    }
    while !done && i < |tokens|
      invariant 0 <= i <= |tokens|
      invariant fresh(row) && row.Length == RowWidth
      invariant Scan(tokens, BlankRow(), 0) == Prepend(records, if done then Ok([]) else Scan(tokens[i..], row[..], k))
      decreases |tokens| - i
    {
      var t := tokens[i];
      assert tokens[i..][0] == t && tokens[i..][1..] == tokens[i + 1..];
      i := i + 1;
      if t.kind == StartTagToken {
        if t.data == "td" {
          ScanCellStep(tokens[i - 1..], row[..], k);
          var panic := FillCellInPlace(row, k, t.attrs);
          if panic.Some? {
            return Err(panic.value);
          }
          k := k + 1;
        }
      } else if t.kind == EndTagToken {
        if t.data == "tr" {
          PrependPrepend(records, [row[..]], Scan(tokens[i..], BlankRow(), 0));
          records := records + [row[..]];
          row := new string[RowWidth](_ => "");
          assert row[..] == BlankRow();
          k := 0;
        }
        if t.data == "table" {
          done := true;
        }
      }
    }
    assert records + [] == records;
    return Ok(records);
  }

  /**
   * The two token loops of getStockHistoricalData: skip to "tbody", then
   * assemble rows after the fixed header.  The result is exactly Extract.
   */
  method ExtractTable(header: Row, tokens: seq<Token>) returns (res: Result<seq<Row>, Panic>)
    ensures res == Extract(header, tokens)
  {
    var i := 0;
    while i < |tokens| && tokens[i].data != "tbody"
      invariant 0 <= i <= |tokens|
      invariant forall j :: 0 <= j < i ==> tokens[j].data != "tbody"
    {
      i := i + 1;
    }
    assert i == FirstTbody(tokens);
    if i < |tokens| {
      i := i + 1;
    }
    var rows := AssembleRows(tokens[i..]);
    match rows
    case Err(p) => res := Err(p);
    case Ok(more) => res := Ok([header] + more);
  }

  // ---------------------------------------------------------------------
  // The shape of the table
  // ---------------------------------------------------------------------

  /** The position of the first </table>; |ts| when there is none. */
  function FirstTableEnd(ts: seq<Token>): (i: nat)
    ensures i <= |ts|
    ensures forall j :: 0 <= j < i ==> !IsTableEnd(ts[j])
    ensures i < |ts| ==> IsTableEnd(ts[i])
    decreases |ts|
  {
    if ts == [] || IsTableEnd(ts[0]) then 0 else 1 + FirstTableEnd(ts[1..])
  }

  /** The tokens before the first </table>. */
  function Region(ts: seq<Token>): seq<Token> {
    ts[..FirstTableEnd(ts)]
  }

  function CountRowEnds(ts: seq<Token>): nat
    decreases |ts|
  {
    if ts == [] then 0 else (if IsRowEnd(ts[0]) then 1 else 0) + CountRowEnds(ts[1..])
  }

  lemma RegionCons(ts: seq<Token>)
    requires ts != [] && !IsTableEnd(ts[0])
    ensures Region(ts) == [ts[0]] + Region(ts[1..])
    ensures CountRowEnds(Region(ts)) == (if IsRowEnd(ts[0]) then 1 else 0) + CountRowEnds(Region(ts[1..]))
  {
    assert Region(ts)[1..] == Region(ts[1..]);
  }

  /**
   * The loop appends exactly one row per </tr> it meets before the first
   * </table>, and every row it appends has six slots.
   */
  lemma {:induction false} ScanShape(ts: seq<Token>, row: Row, k: nat)
    requires |row| == RowWidth
    ensures Scan(ts, row, k).Ok? ==>
              |Scan(ts, row, k).value| == CountRowEnds(Region(ts))
              && forall r :: r in Scan(ts, row, k).value ==> |r| == RowWidth
    decreases |ts|
  {
    if ts != [] {
      var t := ts[0];
      if !IsTableEnd(t) {
        RegionCons(ts);
      }
      if IsCellStart(t) {
        match FillCell(row, k, t.attrs)
        case Err(_) =>
        case Ok(row') => ScanShape(ts[1..], row', k + 1);
      } else if IsRowEnd(t) {
        ScanShape(ts[1..], BlankRow(), 0);
      } else if !IsTableEnd(t) {
        ScanShape(ts[1..], row, k);
      }
    }
  }

  /**
   * Whatever the tokens, an extracted table starts with the header, holds
   * one more row than there are </tr> tags between the first "tbody" token
   * and the first </table>, and has six slots in every data row.
   */
  lemma ExtractShape(header: Row, ts: seq<Token>)
    ensures Extract(header, ts).Ok? ==>
              var table := Extract(header, ts).value;
              |table| == 1 + CountRowEnds(Region(Body(ts))) && table[0] == header
              && forall j :: 1 <= j < |table| ==> |table[j]| == RowWidth
  {
    ScanShape(Body(ts), BlankRow(), 0);
    if Extract(header, ts).Ok? {
      var table := Extract(header, ts).value;
      forall j | 1 <= j < |table| ensures |table[j]| == RowWidth {
        assert table[j] in Scan(Body(ts), BlankRow(), 0).value;
      }
    }
  }

  /** Without any "tbody" token the table is the header alone, and no error. */
  lemma NoTbodyGivesHeaderOnly(header: Row, ts: seq<Token>)
    requires forall j :: 0 <= j < |ts| ==> ts[j].data != "tbody"
    ensures Extract(header, ts) == Ok([header])
  {
    assert FirstTbody(ts) == |ts| && Body(ts) == [];
    assert [header] + [] == [header];
  }

  /**
   * Everything up to and including the first token whose data is "tbody"
   * is skipped, whatever its kind: a start tag, an end tag or plain text.
   */
  lemma SkipsThroughFirstTbody(header: Row, junk: seq<Token>, t: Token, rest: seq<Token>)
    requires forall j :: 0 <= j < |junk| ==> junk[j].data != "tbody"
    requires t.data == "tbody"
    ensures Extract(header, junk + [t] + rest) == Prepend([header], Scan(rest, BlankRow(), 0))
  {
    var ts := junk + [t] + rest;
    assert forall j :: 0 <= j < |junk| ==> ts[j] == junk[j];
    assert ts[|junk|] == t;
    assert FirstTbody(ts) == |junk|;
    assert ts[|junk| + 1..] == rest;
  }

  // ---------------------------------------------------------------------
  // Row by row
  // ---------------------------------------------------------------------

  /** No </tr> and no </table> among the tokens. */
  predicate NoRowBoundary(seg: seq<Token>) {
    forall j :: 0 <= j < |seg| ==> !IsRowEnd(seg[j]) && !IsTableEnd(seg[j])
  }

  /** The buffer and cursor after the tokens of one row, starting from `row` and column k. */
  function BuildRow(seg: seq<Token>, row: Row, k: nat): Result<(Row, nat), Panic>
    decreases |seg|
  {
    if seg == [] then Ok((row, k))
    else if IsCellStart(seg[0]) then
      match FillCell(row, k, seg[0].attrs)
      case Err(p) => Err(p)
      case Ok(row') => BuildRow(seg[1..], row', k + 1)
    else BuildRow(seg[1..], row, k)
  }

  /** The attribute lists of the <td> start tags among the tokens, in order. */
  function TdAttrs(seg: seq<Token>): seq<seq<Attribute>>
    decreases |seg|
  {
    if seg == [] then []
    else (if IsCellStart(seg[0]) then [seg[0].attrs] else []) + TdAttrs(seg[1..])
  }

  /**
   * A </tr> appends the buffer that the tokens since the previous row
   * boundary built, and the next row starts afresh: blank, at column 0.
   * Rows therefore appear in token order and none changes once appended.
   */
  lemma {:induction false} ScanClosesRow(seg: seq<Token>, t: Token, rest: seq<Token>, row: Row, k: nat)
    requires NoRowBoundary(seg) && IsRowEnd(t)
    ensures Scan(seg + [t] + rest, row, k) ==
              match BuildRow(seg, row, k)
              case Err(p) => Err(p)
              case Ok(rk) => Prepend([rk.0], Scan(rest, BlankRow(), 0))
    decreases |seg|
  {
    var ts := seg + [t] + rest;
    if seg == [] {
      assert ts == [t] + rest;
      assert ts[1..] == rest;
    } else {
      assert ts[0] == seg[0] && ts[1..] == seg[1..] + [t] + rest;
      if IsCellStart(seg[0]) {
        match FillCell(row, k, seg[0].attrs)
        case Err(_) =>
        case Ok(row') => ScanClosesRow(seg[1..], t, rest, row', k + 1);
      } else {
        ScanClosesRow(seg[1..], t, rest, row, k);
      }
    }
  }

  /**
   * A row still open at </table> or at the end of the tokens is dropped, and
   * nothing after </table> is read; a panic while filling it still aborts.
   */
  lemma {:induction false} ScanDropsOpenRow(seg: seq<Token>, tail: seq<Token>, row: Row, k: nat)
    requires NoRowBoundary(seg)
    requires tail == [] || IsTableEnd(tail[0])
    ensures Scan(seg + tail, row, k) ==
              match BuildRow(seg, row, k)
              case Err(p) => Err(p)
              case Ok(_) => Ok([])
    decreases |seg|
  {
    var ts := seg + tail;
    if seg == [] {
      assert ts == tail;
    } else {
      assert ts[0] == seg[0] && ts[1..] == seg[1..] + tail;
      if IsCellStart(seg[0]) {
        match FillCell(row, k, seg[0].attrs)
        case Err(_) =>
        case Ok(row') => ScanDropsOpenRow(seg[1..], tail, row', k + 1);
      } else {
        ScanDropsOpenRow(seg[1..], tail, row, k);
      }
    }
  }

  /**
   * What slot c holds after the cells `tds` filled columns k, k + 1, ...
   * of `row`: the value of its cell's last data-real-value attribute, or
   * what it held before when its cell has none or there is no such cell.
   */
  predicate SlotFilled(row: Row, r: Row, k: nat, tds: seq<seq<Attribute>>, c: nat)
    requires c < |row| && c < |r|
  {
    if k <= c < k + |tds| && LastRealValue(tds[c - k]).Some?
    then CellValue(c, LastRealValue(tds[c - k]).value) == Ok(r[c])
    else r[c] == row[c]
  }

  /**
   * The i-th <td> of a row fills column k + i, and nothing else moves the
   * cursor.
   */
  lemma {:induction false} BuildRowCells(seg: seq<Token>, row: Row, k: nat)
    ensures BuildRow(seg, row, k).Ok? ==>
              var r := BuildRow(seg, row, k).value.0;
              BuildRow(seg, row, k).value.1 == k + |TdAttrs(seg)| && |r| == |row|
              && forall c :: 0 <= c < |row| ==> SlotFilled(row, r, k, TdAttrs(seg), c)
    decreases |seg|
  {
    if seg != [] {
      var tds := TdAttrs(seg);
      var rest := TdAttrs(seg[1..]);
      if IsCellStart(seg[0]) {
        var a := seg[0].attrs;
        assert tds == [a] + rest;
        match FillCell(row, k, a)
        case Err(_) =>
        case Ok(row') =>
          BuildRowCells(seg[1..], row', k + 1);
          if BuildRow(seg, row, k).Ok? {
            var r := BuildRow(seg, row, k).value.0;
            forall c | 0 <= c < |row| ensures SlotFilled(row, r, k, tds, c) {
              assert SlotFilled(row', r, k + 1, rest, c);
              if c != k && k < c < k + |tds| {
                assert tds[c - k] == rest[c - k - 1];
              }
            }
          }
      } else {
        assert tds == rest;
        BuildRowCells(seg[1..], row, k);
      }
    }
  }

  /** Some data-real-value among the cells `tds`, placed from column k on, is fatal. */
  predicate HasFatal(width: nat, k: nat, tds: seq<seq<Attribute>>) {
    exists c, i :: 0 <= c < |tds| && 0 <= i < |tds[c]| && IsFatal(width, k + c, tds[c][i])
  }

  /** A fatal attribute among cells is one in the first cell or one in the rest, a column further on. */
  lemma HasFatalCons(width: nat, k: nat, a: seq<Attribute>, rest: seq<seq<Attribute>>)
    ensures HasFatal(width, k, [a] + rest) <==>
              (exists i :: 0 <= i < |a| && IsFatal(width, k, a[i])) || HasFatal(width, k + 1, rest)
  {
    var tds := [a] + rest;
    if HasFatal(width, k, tds) {
      var c, i :| 0 <= c < |tds| && 0 <= i < |tds[c]| && IsFatal(width, k + c, tds[c][i]);
      if c > 0 {
        assert tds[c] == rest[c - 1];
        assert IsFatal(width, (k + 1) + (c - 1), rest[c - 1][i]);
      }
    }
    if exists i :: 0 <= i < |a| && IsFatal(width, k, a[i]) {
      var i :| 0 <= i < |a| && IsFatal(width, k, a[i]);
      assert IsFatal(width, k + 0, tds[0][i]);
    }
    if HasFatal(width, k + 1, rest) {
      var c, i :| 0 <= c < |rest| && 0 <= i < |rest[c]| && IsFatal(width, k + 1 + c, rest[c][i]);
      assert tds[c + 1] == rest[c];
      assert IsFatal(width, k + (c + 1), tds[c + 1][i]);
    }
  }

  /**
   * Filling a row panics exactly when some cell carries a data-real-value
   * that is fatal in its column.
   */
  lemma {:induction false} BuildRowFails(seg: seq<Token>, row: Row, k: nat)
    ensures BuildRow(seg, row, k).Err? <==> HasFatal(|row|, k, TdAttrs(seg))
    decreases |seg|
  {
    if seg != [] {
      var rest := TdAttrs(seg[1..]);
      if IsCellStart(seg[0]) {
        var a := seg[0].attrs;
        assert TdAttrs(seg) == [a] + rest;
        FillCellFails(row, k, a);
        HasFatalCons(|row|, k, a, rest);
        match FillCell(row, k, a)
        case Err(_) =>
        case Ok(row') =>
          BuildRowFails(seg[1..], row', k + 1);
      } else {
        assert TdAttrs(seg) == rest;
        BuildRowFails(seg[1..], row, k);
      }
    }
  }

  /** A cell has a last data-real-value only when one of its attributes carries that key. */
  lemma {:induction false} LastRealValueIsAttribute(attrs: seq<Attribute>)
    ensures LastRealValue(attrs).Some? ==>
              exists i :: 0 <= i < |attrs| && attrs[i] == Attribute(RealValueKey, LastRealValue(attrs).value)
    decreases |attrs|
  {
    if attrs != [] {
      LastRealValueIsAttribute(attrs[1..]);
      if LastRealValue(attrs[1..]).Some? {
        var i :| 0 <= i < |attrs[1..]| && attrs[1..][i] == Attribute(RealValueKey, LastRealValue(attrs[1..]).value);
        assert attrs[i + 1] == attrs[1..][i];
      }
    }
  }

  /**
   * The cells of a data row, as getStockHistoricalData fills them: the i-th <td> of
   * the row fills column i; in column 0 a data-real-value is parsed as epoch
   * seconds and rendered as a timestamp, in the other columns it is stored
   * trimmed; a slot whose <td> carries no data-real-value, or that has no
   * <td> at all, stays "".  A seventh or later <td> may appear, but only
   * without a data-real-value.
   */
  lemma RowCells(seg: seq<Token>)
    ensures BuildRow(seg, BlankRow(), 0).Ok? ==>
              var r := BuildRow(seg, BlankRow(), 0).value.0;
              var tds := TdAttrs(seg);
              |r| == RowWidth
              && (forall c :: 0 <= c < RowWidth && (c >= |tds| || LastRealValue(tds[c]).None?) ==> r[c] == "")
              && (forall c :: 1 <= c < RowWidth && c < |tds| && LastRealValue(tds[c]).Some? ==>
                     r[c] == TrimSpace(LastRealValue(tds[c]).value))
              && (0 < |tds| && LastRealValue(tds[0]).Some? ==>
                     var secs := ParseInt(TrimSpace(LastRealValue(tds[0]).value));
                     secs.Some? && r[0] == Timestamp.FormatUnix(secs.value))
              && (forall c :: RowWidth <= c < |tds| ==> LastRealValue(tds[c]).None?)
  {
    BuildRowCells(seg, BlankRow(), 0);
    BuildRowFails(seg, BlankRow(), 0);
    var tds := TdAttrs(seg);
    if BuildRow(seg, BlankRow(), 0).Ok? {
      var r := BuildRow(seg, BlankRow(), 0).value.0;
      forall c | 0 <= c < RowWidth
        ensures c >= |tds| || LastRealValue(tds[c]).None? ==> r[c] == ""
        ensures c < |tds| && LastRealValue(tds[c]).Some? ==> CellValue(c, LastRealValue(tds[c]).value) == Ok(r[c])
      {
        assert SlotFilled(BlankRow(), r, 0, tds, c);
      }
      forall c | RowWidth <= c < |tds| ensures LastRealValue(tds[c]).None? {
        LastRealValueIsAttribute(tds[c]);
        assert forall i :: 0 <= i < |tds[c]| ==> !IsFatal(RowWidth, c, tds[c][i]);
      }
    }
  }

  // ---------------------------------------------------------------------
  // Reading a prefix
  // ---------------------------------------------------------------------

  /**
   * The loop only ever appends: the rows read from a prefix of the tokens
   * are a prefix of the rows read from the whole, and a panic within the
   * prefix aborts the whole with the same panic.
   */
  lemma {:induction false} ScanPrefix(a: seq<Token>, b: seq<Token>, row: Row, k: nat)
    ensures Scan(a, row, k).Err? ==> Scan(a + b, row, k) == Scan(a, row, k)
    ensures Scan(a + b, row, k).Ok? ==>
              Scan(a, row, k).Ok? && Scan(a, row, k).value <= Scan(a + b, row, k).value
    decreases |a|
  {
    if a != [] {
      var t := a[0];
      assert (a + b)[0] == t && (a + b)[1..] == a[1..] + b;
      if IsCellStart(t) {
        match FillCell(row, k, t.attrs)
        case Err(_) =>
        case Ok(row') => ScanPrefix(a[1..], b, row', k + 1);
      } else if IsRowEnd(t) {
        ScanPrefix(a[1..], b, BlankRow(), 0);
      } else if !IsTableEnd(t) {
        ScanPrefix(a[1..], b, row, k);
      }
    } else {
      assert a + b == b;
    }
  }
}
