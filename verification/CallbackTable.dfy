/**
 Inline-keyboard callbacks of docs/integrations/visayabai_telegram_bridge.py: a
 button value longer than Telegram's 64 bytes is replaced by a short key, and a
 table that lives as long as the process maps the key back when the button is
 tapped.
 */
module CallbackTable {
  import opened Text

  const MAX_CALLBACK_BYTES := 64

  datatype Button = Button(text: Option<string>, value: Option<string>)

  datatype TgButton = TgButton(text: string, data: string)

  /** `_cb_seq` and `_cb_overflow`. */
  datatype Table = Table(seqNo: nat, overflow: map<string, string>)

  const EMPTY := Table(0, map[])

  // ---- bytes and decimals ------------------------------------------------------------

  function Utf8Len(c: char): nat {
    var n := c as int;
    if n < 0x80 then 1 else if n < 0x800 then 2 else if n < 0x10000 then 3 else 4
  }

  function ByteLen(s: string): nat {
    if s == "" then 0 else ByteLen(s[..|s| - 1]) + Utf8Len(s[|s| - 1])
  }

  /** The UTF-8 form of a character, section 3 of RFC 3629: a lead byte and continuation bytes of six bits each. */
  function Utf8Char(c: char): (bytes: seq<int>)
    ensures 1 <= |bytes| <= 4
    ensures |bytes| == 1 <==> 0 <= bytes[0] < 0x80
    ensures |bytes| == 2 <==> 0xC0 <= bytes[0] < 0xE0
    ensures |bytes| == 3 <==> 0xE0 <= bytes[0] < 0xF0
    ensures |bytes| == 4 <==> 0xF0 <= bytes[0] < 0xF8
    ensures forall i | 1 <= i < |bytes| :: 0x80 <= bytes[i] < 0xC0
  {
    var n := c as int;
    if n < 0x80 then [n]
    else if n < 0x800 then [0xC0 + n / 64, 0x80 + n % 64]
    else if n < 0x10000 then [0xE0 + n / 64 / 64, 0x80 + n / 64 % 64, 0x80 + n % 64]
    else [0xF0 + n / 64 / 64 / 64, 0x80 + n / 64 / 64 % 64, 0x80 + n / 64 % 64, 0x80 + n % 64]
  }

  /** str.encode() */
  function Utf8(s: string): seq<int> {
    if s == "" then [] else Utf8(s[..|s| - 1]) + Utf8Char(s[|s| - 1])
  }

  /** The length test counts encoded bytes. */
  lemma {:induction false} ByteLenIsUtf8(s: string)
    ensures ByteLen(s) == |Utf8(s)|
  {
    if s == "" {
    } else {
      ByteLenIsUtf8(s[..|s| - 1]);
    }
  }

  /** The bytes determine the character. */
  lemma Utf8CharDecodes(c: char)
    ensures var b := Utf8Char(c);
            c as int ==
            match |b|
            case 1 => b[0]
            case 2 => (b[0] - 0xC0) * 64 + (b[1] - 0x80)
            case 3 => ((b[0] - 0xE0) * 64 + (b[1] - 0x80)) * 64 + (b[2] - 0x80)
            case _ => (((b[0] - 0xF0) * 64 + (b[1] - 0x80)) * 64 + (b[2] - 0x80)) * 64 + (b[3] - 0x80)
  {
    var n := c as int;
    var q := n / 64;
    assert n == q * 64 + n % 64 && q == q / 64 * 64 + q % 64;
  }

  function Digit(d: nat): char
    requires d < 10
  {
    ('0' as int + d) as char
  }

  function Decimal(n: nat): string {
    if n < 10 then [Digit(n)] else Decimal(n / 10) + [Digit(n % 10)]
  }

  function Parse(s: string): int {
    if s == "" then 0 else Parse(s[..|s| - 1]) * 10 + (s[|s| - 1] as int - '0' as int)
  }

  lemma {:induction false} ParseDecimal(n: nat)
    ensures Parse(Decimal(n)) == n
  {
    var s := Decimal(n);
    if n < 10 {
      assert s[..|s| - 1] == "";
    } else {
      ParseDecimal(n / 10);
      assert s[..|s| - 1] == Decimal(n / 10);
    }
  }

  /** Plain decimal digits without a leading zero. */
  lemma {:induction false} DecimalIsPlain(n: nat)
    ensures Decimal(n) != "" && forall c | c in Decimal(n) :: '0' <= c <= '9'
    ensures Decimal(n)[0] == '0' <==> n == 0
  {
    if n < 10 {
    } else {
      DecimalIsPlain(n / 10);
      assert Decimal(n)[0] == Decimal(n / 10)[0];
    }
  }

  function Pow10(k: nat): nat {
    if k == 0 then 1 else 10 * Pow10(k - 1)
  }

  /** A number has at most k digits exactly when it is below 10^k; every digit is one byte. */
  lemma {:induction false} DecimalLength(n: nat, k: nat)
    requires k > 0
    ensures ByteLen("#" + Decimal(n)) <= k + 1 <==> n < Pow10(k)
    ensures ByteLen("#" + Decimal(n)) >= 2
    decreases n
  {
    var key := "#" + Decimal(n);
    assert ByteLen("#") == 1 by { assert "#"[..0] == ""; }
    if n < 10 {
      assert key[..|key| - 1] == "#";
      Pow10AtLeast(k);
    } else {
      assert key[..|key| - 1] == "#" + Decimal(n / 10);
      DecimalLength(n / 10, if k == 1 then 1 else k - 1);
      if k == 1 {
        assert Pow10(1) == 10 * Pow10(0);
      } else {
        assert n < 10 * Pow10(k - 1) <==> n / 10 < Pow10(k - 1);
      }
    }
  }

  lemma {:induction false} Pow10AtLeast(k: nat)
    requires k > 0
    ensures Pow10(k) >= 10
  {
    if k == 1 {
    } else {
      Pow10AtLeast(k - 1);
    }
  }

  // ---- encoding a value, decoding a tap ---------------------------------------------------

  function Key(n: nat): string {
    "#" + Decimal(n)
  }

  lemma KeysDiffer(m: nat, n: nat)
    requires Key(m) == Key(n)
    ensures m == n
  {
    assert Key(m)[1..] == Decimal(m) && Key(n)[1..] == Decimal(n);
    ParseDecimal(m);
    ParseDecimal(n);
  }

  function Encode(t: Table, v: string): (Table, string) {
    if ByteLen(v) > MAX_CALLBACK_BYTES
    then (Table(t.seqNo + 1, t.overflow[Key(t.seqNo + 1) := v]), Key(t.seqNo + 1))
    else (t, v)
  }

  function Decode(t: Table, data: string): string {
    if data in t.overflow then t.overflow[data] else data
  }

  function ValueOf(b: Button): string {
    if b.value.None? then "" else b.value.value
  }

  function TextOf(b: Button): string {
    if b.text.None? then "·" else b.text.value
  }

  function RenderRow(t: Table, row: seq<Button>): (Table, seq<TgButton>) {
    if row == [] then (t, [])
    else
      var k := |row| - 1;
      var (t1, done) := RenderRow(t, row[..k]);
      var (t2, data) := Encode(t1, ValueOf(row[k]));
      (t2, done + [TgButton(TextOf(row[k]), data)])
  }

  /** Rows without buttons are left out of the keyboard. */
  function Render(t: Table, rows: seq<seq<Button>>): (Table, seq<seq<TgButton>>) {
    if rows == [] then (t, [])
    else
      var k := |rows| - 1;
      var (t1, done) := Render(t, rows[..k]);
      var (t2, row) := RenderRow(t1, rows[k]);
      (t2, if row == [] then done else done + [row])
  }

  function NonEmpty<T>(rows: seq<seq<T>>): seq<seq<T>> {
    if rows == [] then []
    else
      var k := |rows| - 1;
      if rows[k] == [] then NonEmpty(rows[..k]) else NonEmpty(rows[..k]) + [rows[k]]
  }

  class Bridge {
    var cbSeq: nat
    var cbOverflow: map<string, string>

    ghost function Model(): Table
      reads this
    {
      Table(cbSeq, cbOverflow)
    }

    ghost predicate Valid()
      reads this
    {
      Inv(Model())
    }

    constructor ()
      ensures Valid() && Model() == EMPTY
    {
      cbSeq, cbOverflow := 0, map[];
    }

    method ToInlineKeyboard(rows: seq<seq<Button>>) returns (out: seq<seq<TgButton>>)
      requires Valid()
      modifies this
      ensures (Model(), out) == Render(old(Model()), rows)
      ensures Valid() && Extends(old(Model()), Model()) && KeyboardStandsFor(Model(), out, NonEmpty(rows))
    {
      KeyboardIsFaithful(Model(), rows);
      out := BuildRows(rows);
    }

    /** The outer loop, over the rows. */
    method BuildRows(rows: seq<seq<Button>>) returns (out: seq<seq<TgButton>>)
      modifies this
      ensures (Model(), out) == Render(old(Model()), rows)
    {
      out := [];
      for i := 0 to |rows|
        invariant (Model(), out) == Render(old(Model()), rows[..i])
      {
        assert rows[..i + 1][..i] == rows[..i];
        var tgRow := BuildRow(rows[i]);
        if tgRow != [] {
          out := out + [tgRow];
        }
      }
      assert rows[..|rows|] == rows;
    }

    /** The inner loop, over the buttons of a row. */
    method BuildRow(row: seq<Button>) returns (tgRow: seq<TgButton>)
      modifies this
      ensures (Model(), tgRow) == RenderRow(old(Model()), row)
    {
      tgRow := [];
      for j := 0 to |row|
        invariant (Model(), tgRow) == RenderRow(old(Model()), row[..j])
      {
        assert row[..j + 1][..j] == row[..j];
        var value := ValueOf(row[j]);
        if ByteLen(value) > MAX_CALLBACK_BYTES {
          cbSeq := cbSeq + 1;
          cbOverflow := cbOverflow[Key(cbSeq) := value];
          value := Key(cbSeq);
        }
        tgRow := tgRow + [TgButton(TextOf(row[j]), value)];
      }
      assert row[..|row|] == row;
    }

    /**
     The lookup in poll_forever. Data that stands for a value comes back as that value,
     unless the value is short and spelled like a key in use; data that is no key in
     use comes back as it is.
     */
    method Tap(data: string) returns (action: string)
      requires Valid()
      ensures forall v | StandsFor(Model(), data, v) ::
                action == v <==> !(ByteLen(v) <= MAX_CALLBACK_BYTES && IsKey(v, cbSeq))
      ensures !IsKey(data, cbSeq) ==> action == data
    {
      action := if data in cbOverflow then cbOverflow[data] else data;
    }
  }

  // ---- the table over time -----------------------------------------------------------------------

  ghost predicate IsKey(v: string, upTo: nat) {
    exists n :: 1 <= n <= upTo && v == Key(n)
  }

  /** The keys in use are exactly #1 .. #seq, and each maps to a value too long for Telegram. */
  ghost predicate Inv(t: Table) {
    && (forall k :: k in t.overflow <==> IsKey(k, t.seqNo))
    && (forall k | k in t.overflow :: ByteLen(t.overflow[k]) > MAX_CALLBACK_BYTES)
  }

  /** No key is ever reused, dropped or overwritten. */
  ghost predicate Extends(t: Table, u: Table) {
    && t.seqNo <= u.seqNo
    && forall k | k in t.overflow :: k in u.overflow && u.overflow[k] == t.overflow[k]
  }

  /** The callback data stands for the value: it is the value, or a key the table maps to it. */
  ghost predicate StandsFor(t: Table, data: string, v: string) {
    if ByteLen(v) <= MAX_CALLBACK_BYTES then data == v
    else data in t.overflow && t.overflow[data] == v
  }

  lemma EncodeStandsFor(t: Table, v: string)
    requires Inv(t)
    ensures var (u, data) := Encode(t, v); Inv(u) && Extends(t, u) && StandsFor(u, data, v)
  {
    var n := t.seqNo + 1;
    if Key(n) in t.overflow {
      var m :| 1 <= m <= t.seqNo && Key(n) == Key(m);
      KeysDiffer(n, m);
    }
    if ByteLen(v) > MAX_CALLBACK_BYTES {
      var u := Encode(t, v).0;
      forall k ensures k in u.overflow <==> IsKey(k, n) {
        assert k in t.overflow <==> IsKey(k, t.seqNo);
        if i :| 1 <= i <= n && k == Key(i) {
          assert i <= t.seqNo || i == n;
        }
      }
    }
  }

  /** The shown button has the given text ("·" without one) and stands for the given value (empty without one). */
  ghost predicate ButtonStandsFor(t: Table, shown: TgButton, b: Button) {
    && shown.text == (match b.text case None => "·" case Some(text) => text)
    && StandsFor(t, shown.data, match b.value case None => "" case Some(value) => value)
  }

  ghost predicate RowStandsFor(t: Table, out: seq<TgButton>, row: seq<Button>) {
    |out| == |row| && forall j | 0 <= j < |row| :: ButtonStandsFor(t, out[j], row[j])
  }

  lemma ExtendsTransitive(t: Table, u: Table, v: Table)
    requires Extends(t, u) && Extends(u, v)
    ensures Extends(t, v)
  {
  }

  lemma RowStays(t: Table, u: Table, out: seq<TgButton>, row: seq<Button>)
    requires Extends(t, u) && RowStandsFor(t, out, row)
    ensures RowStandsFor(u, out, row)
  {
  }

  lemma AppendButton(t: Table, done: seq<TgButton>, init: seq<Button>, shown: TgButton, b: Button)
    requires RowStandsFor(t, done, init) && ButtonStandsFor(t, shown, b)
    ensures RowStandsFor(t, done + [shown], init + [b])
  {
  }

  /** One more button. */
  lemma ButtonIsFaithful(t: Table, done: seq<TgButton>, init: seq<Button>, b: Button)
    requires Inv(t) && RowStandsFor(t, done, init)
    ensures var (u, data) := Encode(t, ValueOf(b));
            Inv(u) && Extends(t, u) && RowStandsFor(u, done + [TgButton(TextOf(b), data)], init + [b])
  {
    var (u, data) := Encode(t, ValueOf(b));
    EncodeStandsFor(t, ValueOf(b));
    RowStays(t, u, done, init);
    AppendButton(u, done, init, TgButton(TextOf(b), data), b);
  }

  lemma {:induction false} RowIsFaithful(t: Table, row: seq<Button>)
    requires Inv(t)
    ensures var (u, out) := RenderRow(t, row); Inv(u) && Extends(t, u) && RowStandsFor(u, out, row)
  {
    if row == [] {
    } else {
      var k := |row| - 1;
      var (t1, done) := RenderRow(t, row[..k]);
      RowIsFaithful(t, row[..k]);
      ButtonIsFaithful(t1, done, row[..k], row[k]);
      ExtendsTransitive(t, t1, Encode(t1, ValueOf(row[k])).0);
      assert row == row[..k] + [row[k]];
    }
  }

  ghost predicate KeyboardStandsFor(t: Table, out: seq<seq<TgButton>>, rows: seq<seq<Button>>) {
    |out| == |rows| && forall i | 0 <= i < |rows| :: RowStandsFor(t, out[i], rows[i])
  }

  lemma KeyboardStays(t: Table, u: Table, out: seq<seq<TgButton>>, rows: seq<seq<Button>>)
    requires Extends(t, u) && KeyboardStandsFor(t, out, rows)
    ensures KeyboardStandsFor(u, out, rows)
  {
    forall i | 0 <= i < |rows| ensures RowStandsFor(u, out[i], rows[i]) {
      RowStays(t, u, out[i], rows[i]);
    }
  }

  lemma {:induction false} KeyboardIsFaithful(t: Table, rows: seq<seq<Button>>)
    requires Inv(t)
    ensures var (u, out) := Render(t, rows); Inv(u) && Extends(t, u) && KeyboardStandsFor(u, out, NonEmpty(rows))
  {
    if rows == [] {
    } else {
      var k := |rows| - 1;
      var (t1, done) := Render(t, rows[..k]);
      KeyboardIsFaithful(t, rows[..k]);
      RowIsFaithful(t1, rows[k]);
      KeyboardStays(t1, RenderRow(t1, rows[k]).0, done, NonEmpty(rows[..k]));
    }
  }

  // ---- whole runs: many keyboards, taps at any later time ----------------------------------------------

  function RenderAll(t: Table, boards: seq<seq<seq<Button>>>): Table
    decreases |boards|
  {
    if boards == [] then t else RenderAll(Render(t, boards[0]).0, boards[1..])
  }

  lemma {:induction false} RunExtends(t: Table, boards: seq<seq<seq<Button>>>)
    requires Inv(t)
    ensures Inv(RenderAll(t, boards)) && Extends(t, RenderAll(t, boards))
    decreases |boards|
  {
    if boards == [] {
    } else {
      KeyboardIsFaithful(t, boards[0]);
      RunExtends(Render(t, boards[0]).0, boards[1..]);
    }
  }

  /**
   A tap on a button of `board`, rendered after the keyboards `earlier` and tapped after
   the keyboards `later`: the decoded action is the button's own value, unless that
   value is short and happens to be spelled like a key handed out by then.
   */
  lemma TapRoundTrip(
      earlier: seq<seq<seq<Button>>>, board: seq<seq<Button>>, later: seq<seq<seq<Button>>>, i: nat, j: nat)
    requires i < |NonEmpty(board)| && j < |NonEmpty(board)[i]|
    ensures var shown := RenderAll(EMPTY, earlier);
            var (after, out) := Render(shown, board);
            var tapped := RenderAll(after, later);
            var b := NonEmpty(board)[i][j];
            var v := if b.value.Some? then b.value.value else "";
            && i < |out| && j < |out[i]|
            && out[i][j].text == (if b.text.Some? then b.text.value else "·")
            && (Decode(tapped, out[i][j].data) == v <==> !(|Utf8(v)| <= 64 && IsKey(v, tapped.seqNo)))
            && (tapped.seqNo < Pow10(63) ==> |Utf8(out[i][j].data)| <= 64)
  {
    RunExtends(EMPTY, earlier);
    var shown := RenderAll(EMPTY, earlier);
    KeyboardIsFaithful(shown, board);
    var (after, out) := Render(shown, board);
    RunExtends(after, later);
    assert RowStandsFor(after, out[i], NonEmpty(board)[i]);
    assert ButtonStandsFor(after, out[i][j], NonEmpty(board)[i][j]);
    ByteLenIsUtf8(ValueOf(NonEmpty(board)[i][j]));
    FitsTelegram(after, out[i][j].data, ValueOf(NonEmpty(board)[i][j]));
  }

  /** A value that does not start with '#' is never spelled like a key. */
  lemma NoHashNoKey(v: string, n: nat)
    requires v == "" || v[0] != '#'
    ensures !IsKey(v, n)
  {
  }

  /** While fewer than 10^63 values have overflowed, callback_data stays within Telegram's limit. */
  lemma FitsTelegram(t: Table, data: string, v: string)
    requires Inv(t) && StandsFor(t, data, v)
    ensures t.seqNo < Pow10(63) ==> |Utf8(data)| <= 64
  {
    if ByteLen(v) > MAX_CALLBACK_BYTES {
      var n :| 1 <= n <= t.seqNo && data == Key(n);
      DecimalLength(n, 63);
    }
    ByteLenIsUtf8(data);
  }

  // ---- across restarts --------------------------------------------------------------------------------

  function LongValue(v: string): seq<string> {
    if ByteLen(v) > MAX_CALLBACK_BYTES then [v] else []
  }

  function LongInRow(row: seq<Button>): seq<string> {
    if row == [] then [] else LongInRow(row[..|row| - 1]) + LongValue(ValueOf(row[|row| - 1]))
  }

  function LongIn(rows: seq<seq<Button>>): seq<string> {
    if rows == [] then [] else LongIn(rows[..|rows| - 1]) + LongInRow(rows[|rows| - 1])
  }

  /** The values too long for Telegram, in the order the keyboards show them. */
  function LongValues(boards: seq<seq<seq<Button>>>): seq<string> {
    if boards == [] then [] else LongValues(boards[..|boards| - 1]) + LongIn(boards[|boards| - 1])
  }

  /** The table numbers exactly these values, from 1 on. */
  ghost predicate Numbers(t: Table, vs: seq<string>) {
    && Inv(t)
    && t.seqNo == |vs|
    && forall n | 1 <= n <= |vs| :: Key(n) in t.overflow && t.overflow[Key(n)] == vs[n - 1]
  }

  lemma EncodeNumbers(t: Table, vs: seq<string>, v: string)
    requires Numbers(t, vs)
    ensures Numbers(Encode(t, v).0, vs + LongValue(v))
  {
    EncodeStandsFor(t, v);
    assert vs + [] == vs;
  }

  lemma {:induction false} RowNumbers(t: Table, vs: seq<string>, row: seq<Button>)
    requires Numbers(t, vs)
    ensures Numbers(RenderRow(t, row).0, vs + LongInRow(row))
  {
    if row == [] {
      assert vs + [] == vs;
    } else {
      var k := |row| - 1;
      RowNumbers(t, vs, row[..k]);
      EncodeNumbers(RenderRow(t, row[..k]).0, vs + LongInRow(row[..k]), ValueOf(row[k]));
      assert vs + LongInRow(row) == vs + LongInRow(row[..k]) + LongValue(ValueOf(row[k]));
    }
  }

  lemma {:induction false} BoardNumbers(t: Table, vs: seq<string>, rows: seq<seq<Button>>)
    requires Numbers(t, vs)
    ensures Numbers(Render(t, rows).0, vs + LongIn(rows))
  {
    if rows == [] {
      assert vs + [] == vs;
    } else {
      var k := |rows| - 1;
      BoardNumbers(t, vs, rows[..k]);
      RowNumbers(Render(t, rows[..k]).0, vs + LongIn(rows[..k]), rows[k]);
      assert vs + LongIn(rows) == vs + LongIn(rows[..k]) + LongInRow(rows[k]);
    }
  }

  lemma {:induction false} RenderAllSnoc(t: Table, boards: seq<seq<seq<Button>>>, board: seq<seq<Button>>)
    ensures RenderAll(t, boards + [board]) == Render(RenderAll(t, boards), board).0
    decreases |boards|
  {
    var more := boards + [board];
    if boards == [] {
      assert more[1..] == [];
    } else {
      assert more[1..] == boards[1..] + [board];
      RenderAllSnoc(Render(t, boards[0]).0, boards[1..], board);
    }
  }

  /** The n-th key of a process maps to the n-th long value it has shown. */
  lemma {:induction false} KeysNumberLongValues(boards: seq<seq<seq<Button>>>)
    ensures Numbers(RenderAll(EMPTY, boards), LongValues(boards))
    decreases |boards|
  {
    if boards == [] {
    } else {
      var k := |boards| - 1;
      assert boards == boards[..k] + [boards[k]];
      KeysNumberLongValues(boards[..k]);
      RenderAllSnoc(EMPTY, boards[..k], boards[k]);
      BoardNumbers(RenderAll(EMPTY, boards[..k]), LongValues(boards[..k]), boards[k]);
    }
  }

  /** The number in a key. */
  function KeyNumber(data: string): int {
    if data == "" then 0 else Parse(data[1..])
  }

  /**
   What a key found on an old keyboard means to a process that has shown `since` after
   its own start: the value with the same number, or the bare key if there is none yet.
   */
  lemma OldKeyDecodes(n: nat, since: seq<seq<seq<Button>>>)
    requires n >= 1
    ensures KeyNumber(Key(n)) == n
    ensures Decode(RenderAll(EMPTY, since), Key(n)) ==
            if n <= |LongValues(since)| then LongValues(since)[n - 1] else Key(n)
  {
    assert Key(n)[1..] == Decimal(n);
    ParseDecimal(n);
    KeysNumberLongValues(since);
    if n > |LongValues(since)| && IsKey(Key(n), |LongValues(since)|) {
      var m :| 1 <= m <= |LongValues(since)| && Key(n) == Key(m);
      KeysDiffer(n, m);
    }
  }

  /**
   A button of `board`, shown by an earlier process after `earlier`, and tapped after the
   bridge restarted and showed `since`. A short value comes back unless it is spelled
   like a key in use by then. A long value, the n-th of its process, comes back exactly
   when the n-th long value of the new process is the same one (or, with no such value
   yet, when the long value itself is spelled like its key).
   */
  lemma TapAcrossRestart(
      earlier: seq<seq<seq<Button>>>, board: seq<seq<Button>>, since: seq<seq<seq<Button>>>, i: nat, j: nat)
    requires i < |NonEmpty(board)| && j < |NonEmpty(board)[i]|
    ensures var out := Render(RenderAll(EMPTY, earlier), board).1;
            var b := NonEmpty(board)[i][j];
            var v := if b.value.Some? then b.value.value else "";
            && i < |out| && j < |out[i]|
            && var data := out[i][j].data;
               var n, renewed := KeyNumber(data), LongValues(since);
               Decode(RenderAll(EMPTY, since), data) == v <==>
                 if ByteLen(v) <= MAX_CALLBACK_BYTES then !IsKey(v, |renewed|)
                 else if 1 <= n <= |renewed| then renewed[n - 1] == v
                 else v == data
  {
    var shown := RenderAll(EMPTY, earlier);
    RunExtends(EMPTY, earlier);
    KeyboardIsFaithful(shown, board);
    var (after, out) := Render(shown, board);
    var v := ValueOf(NonEmpty(board)[i][j]);
    assert RowStandsFor(after, out[i], NonEmpty(board)[i]);
    assert ButtonStandsFor(after, out[i][j], NonEmpty(board)[i][j]);
    KeysNumberLongValues(since);
    if ByteLen(v) > MAX_CALLBACK_BYTES {
      var n :| 1 <= n <= after.seqNo && out[i][j].data == Key(n);
      OldKeyDecodes(n, since);
    }
  }

  lemma OneLongButton(v: string)
    requires ByteLen(v) > MAX_CALLBACK_BYTES
    ensures Render(EMPTY, [[Button(None, Some(v))]]) == (Table(1, map[Key(1) := v]), [[TgButton("·", Key(1))]])
  {
    var row := [Button(None, Some(v))];
    var rows: seq<seq<Button>> := [row];
    var tg := [TgButton("·", Key(1))];
    assert row[..0] == [] && rows[..0] == [];
    assert Encode(EMPTY, v) == (Table(1, map[Key(1) := v]), Key(1));
    assert RenderRow(EMPTY, row).1 == [] + tg == tg;
    assert Render(EMPTY, rows).1 == [] + [tg] == [tg];
  }

  /** Any two long values: after a restart, the button of the first performs the second. */
  lemma RestartMixesButtons(v: string, w: string)
    requires ByteLen(v) > MAX_CALLBACK_BYTES && ByteLen(w) > MAX_CALLBACK_BYTES
    ensures var first, second := [[Button(None, Some(v))]], [[Button(None, Some(w))]];
            && |Render(EMPTY, first).1| == 1 && |Render(EMPTY, first).1[0]| == 1
            && Decode(Render(EMPTY, second).0, Render(EMPTY, first).1[0][0].data) == w
  {
    OneLongButton(v);
    OneLongButton(w);
  }
}
