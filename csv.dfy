/** The walker's CSV file `out.csv`: the row format it appends and the
    recovery of the resume height and the address count from the last line
    when it starts again (src/main.rs:44-71). */
module Csv {
  import opened Results
  import opened RustText

  /** The column names of the header line (src/main.rs:15). */
  const COLUMNS: seq<string> := ["Height", "Date", "Total P2PK addresses", "Total P2PK coins"]
  const HEADER: string := Join(COLUMNS, ',')

  /** A column value that cannot break the row apart: no comma, no newline. */
  predicate IsField(s: string) {
    ',' !in s && '\n' !in s
  }

  /** One data row `height,date,addresses,coins` (src/main.rs:160-162). */
  function FormatRow(height: nat, date: string, addresses: int, coins: string): string {
    NatToString(height) + "," + date + "," + IntToString(addresses) + "," + coins
  }

  /** The fields of a row, in order, are exactly the four values written. */
  lemma RowFields(height: nat, date: string, addresses: int, coins: string)
    requires IsField(date) && IsField(coins)
    ensures Split(FormatRow(height, date, addresses, coins), ',')
         == [NatToString(height), date, IntToString(addresses), coins]
    ensures '\n' !in FormatRow(height, date, addresses, coins)
  {
    var h, a := NatToString(height), IntToString(addresses);
    var fields := [h, date, a, coins];
    assert fields[1..] == [date, a, coins];
    assert fields[1..][1..] == [a, coins];
    assert fields[1..][1..][1..] == [coins];
    assert Join([a, coins], ',') == a + [','] + coins;
    assert Join([date, a, coins], ',') == date + [','] + (a + [','] + coins);
    assert Join(fields, ',') == FormatRow(height, date, addresses, coins);
    assert ',' !in h && '\n' !in h by { DigitsHaveNoSeparator(h); }
    assert ',' !in a && '\n' !in a by {
      if addresses < 0 { DigitsHaveNoSeparator(NatToString(-addresses)); }
      else { DigitsHaveNoSeparator(a); }
    }
    SplitJoin(fields, ',');
  }

  /** A row is never empty, and it ends in a carriage return only when its
      coin column does. */
  lemma RowEnd(height: nat, date: string, addresses: int, coins: string)
    ensures FormatRow(height, date, addresses, coins) != []
    ensures EndsInCr(FormatRow(height, date, addresses, coins)) <==> EndsInCr(coins)
  {
    var prefix := NatToString(height) + "," + date + "," + IntToString(addresses) + ",";
    var row := FormatRow(height, date, addresses, coins);
    assert row == prefix + coins;
    assert prefix[|prefix| - 1] == ',';
    if coins == [] {
      assert row == prefix;
    } else {
      assert row[|row| - 1] == coins[|coins| - 1];
    }
  }

  lemma DigitsHaveNoSeparator(s: string)
    requires AllDigits(s)
    ensures ',' !in s && '\n' !in s
  {
  }

  /** The comma-separated fields of the file's last line, if it has lines. */
  function LastFields(content: string): Option<seq<string>> {
    var lines := Lines(content);
    if lines == [] then None else Some(Split(lines[|lines| - 1], ','))
  }

  /** The height of the last stored row, or 1 when the file is empty, its
      first field is no `u64` (the header, say) or it reads 0
      (src/main.rs:47-59). `fields.first()` always succeeds because `split`
      never yields an empty list, so the `else 1` at src/main.rs:52 is dead. */
  function ResumeHeight(content: string): (h: U64)
    ensures h >= 1
  {
    var parsed := match LastFields(content)
      case None => 1
      case Some(fields) => ParseU64(fields[0]).UnwrapOr(1);
    if parsed == 0 then 1 else parsed
  }

  /** The address count of the last stored row: its third field as an `i32`,
      or 0 when the file is empty, the line has fewer than three fields or
      the field does not parse (src/main.rs:62-71). */
  function ResumeAddresses(content: string): (a: int)
    ensures IsI32(a)
  {
    match LastFields(content)
    case None => 0
    case Some(fields) =>
      if |fields| >= 3 then ParseI32(fields[2]).UnwrapOr(0) else 0
  }

  /** The resume height is 1 exactly when there is nothing to resume from:
      no line, a first field that is no `u64`, or a stored height of 0 or 1;
      otherwise it is the stored height itself. */
  lemma ResumeHeightCases(content: string)
    ensures ResumeHeight(content) == 1 <==>
      (LastFields(content).None?
       || ParseU64(LastFields(content).value[0]) in {None, Some(0), Some(1)})
    ensures LastFields(content).Some? && ParseU64(LastFields(content).value[0]).Some?
      && ParseU64(LastFields(content).value[0]).value >= 1
      ==> ResumeHeight(content) == ParseU64(LastFields(content).value[0]).value
  {
  }

  /** The recovered count is the third field when it parses as an `i32`,
      and 0 in every other case. */
  lemma ResumeAddressesCases(content: string)
    ensures LastFields(content).Some? && |LastFields(content).value| >= 3
      && ParseI32(LastFields(content).value[2]).Some?
      ==> ResumeAddresses(content) == ParseI32(LastFields(content).value[2]).value
    ensures (LastFields(content).None? || |LastFields(content).value| < 3
      || ParseI32(LastFields(content).value[2]).None?)
      ==> ResumeAddresses(content) == 0
  {
  }

  /** The header is one line of text whose fields are the column names. */
  lemma HeaderFields()
    ensures '\n' !in HEADER && '\r' !in HEADER && Lines(HEADER) == [HEADER]
    ensures Split(HEADER, ',') == COLUMNS
  {
    ColumnsArePlain();
    JoinAvoids(COLUMNS, ',', '\n');
    JoinAvoids(COLUMNS, ',', '\r');
    SplitJoin(COLUMNS, ',');
  }

  /** Letters, digits and spaces only. */
  predicate PlainText(s: string) {
    forall i :: 0 <= i < |s| ==> s[i] == ' ' || IsDigit(s[i]) || 'A' <= s[i] <= 'Z' || 'a' <= s[i] <= 'z'
  }

  /** No column name holds a comma, a newline or a carriage return. */
  lemma ColumnsArePlain()
    ensures forall k :: 0 <= k < |COLUMNS| ==> IsField(COLUMNS[k]) && '\r' !in COLUMNS[k]
  {
    assert forall k :: 0 <= k < |COLUMNS| ==> PlainText(COLUMNS[k]);
  }

  /** An empty file starts from height 1 with no addresses. */
  lemma EmptyFileStartsAtOne()
    ensures ResumeHeight("") == 1 && ResumeAddresses("") == 0
  {
  }

  /** A file that holds only the header, with or without a final newline,
      has the header as its last line. */
  lemma HeaderOnlyLastFields(content: string)
    requires content == HEADER || content == HEADER + "\n"
    ensures LastFields(content) == Some(COLUMNS)
  {
    HeaderFields();
    if content != HEADER {
      assert !EndsInCr(HEADER) by {
        assert HEADER[|HEADER| - 1] in HEADER;
      }
      OneTerminatedLine(HEADER);
    }
  }

  /** Such a file starts from height 1 with no addresses: the header's first
      and third fields are no numbers. */
  lemma HeaderOnlyStartsAtOne(content: string)
    requires content == HEADER || content == HEADER + "\n"
    ensures ResumeHeight(content) == 1 && ResumeAddresses(content) == 0
  {
    HeaderOnlyLastFields(content);
    ParseRejectsNonNumeric(COLUMNS[0]);
    ParseRejectsNonNumeric(COLUMNS[2]);
  }

  /** The last line of a file that ends with a row is that row, split
      into the four values written. */
  lemma LastFieldsOfRow(before: seq<string>, height: nat, date: string, addresses: int, coins: string)
    requires IsField(date) && IsField(coins)
    ensures LastFields(Join(before + [FormatRow(height, date, addresses, coins)], '\n'))
         == Some([NatToString(height), date, IntToString(addresses), coins])
  {
    var row := FormatRow(height, date, addresses, coins);
    var lines := Lines(Join(before + [row], '\n'));
    RowFields(height, date, addresses, coins);
    assert lines != [] && lines[|lines| - 1] == row by {
      LastLineOfJoin(before + [row]);
    }
  }

  /** Round trip: when the file ends with a row written for height `h >= 1`
      and count `a`, the walker resumes at `h` with count `a`, whatever
      the lines before it hold. */
  lemma ResumeFromRow(before: seq<string>, height: U64, date: string, addresses: int, coins: string)
    requires height >= 1 && IsI32(addresses)
    requires IsField(date) && IsField(coins)
    ensures var content := Join(before + [FormatRow(height, date, addresses, coins)], '\n');
      ResumeHeight(content) == height && ResumeAddresses(content) == addresses
  {
    LastFieldsOfRow(before, height, date, addresses, coins);
    ParseU64OfNatToString(height);
    ParseI32OfIntToString(addresses);
  }
}
