/** The splitter for one CSV line of `tasklist`, against a writer that quotes every field
    (RFC 4180, section 2). */
module Tasklist {
  import opened Text

  function ParseFrom(text: string, current: string, inQuotes: bool): seq<string>
    decreases |text|
  {
    if text == "" then [Trim(current)]
    else if text[0] == '"' then
      if inQuotes && |text| > 1 && text[1] == '"' then ParseFrom(text[2..], current + "\"", inQuotes)
      else ParseFrom(text[1..], current, !inQuotes)
    else if text[0] == ',' && !inQuotes then [Trim(current)] + ParseFrom(text[1..], "", inQuotes)
    else ParseFrom(text[1..], current + [text[0]], inQuotes)
  }

  /** `parse_tasklist_csv_line`. */
  method ParseLine(line: string) returns (fields: seq<string>)
    ensures fields == ParseFrom(line, "", false)
  {
    fields := [];
    var current := "";
    var inQuotes := false;
    var i := 0;
    while i < |line|
      invariant 0 <= i <= |line|
      invariant fields + ParseFrom(line[i..], current, inQuotes) == ParseFrom(line, "", false)
    {
      var character := line[i];
      ghost var rest := line[i..];
      assert rest[1..] == line[i + 1..];
      i := i + 1;
      if character == '"' {
        if inQuotes && i < |line| && line[i] == '"' {
          assert rest[2..] == line[i + 1..];
          current := current + "\"";
          i := i + 1;
        } else {
          inQuotes := !inQuotes;
        }
      } else if character == ',' && !inQuotes {
        fields := fields + [Trim(current)];
        current := "";
      } else {
        current := current + [character];
      }
    }
    fields := fields + [Trim(current)];
  }

  // ---------------------------------------------------------------- the writer

  function DoubleQuote(c: char): string {
    if c == '"' then "\"\"" else [c]
  }

  function DoubleQuotes(field: string): string {
    if field == "" then "" else DoubleQuote(field[0]) + DoubleQuotes(field[1..])
  }

  function WriteField(field: string): string {
    "\"" + DoubleQuotes(field) + "\""
  }

  function WriteFields(fields: seq<string>): (written: seq<string>)
    ensures |written| == |fields|
  {
    if fields == [] then [] else [WriteField(fields[0])] + WriteFields(fields[1..])
  }

  function WriteLine(fields: seq<string>): string {
    Join(WriteFields(fields), ",")
  }

  function TrimEach(fields: seq<string>): (trimmed: seq<string>)
    ensures |trimmed| == |fields|
    ensures forall i :: 0 <= i < |fields| ==> trimmed[i] == Trim(fields[i])
  {
    if fields == [] then [] else [Trim(fields[0])] + TrimEach(fields[1..])
  }

  // ---------------------------------------------------------------- round trip

  /** Inside quotes a character is read from its doubled or plain form. */
  lemma ReadQuotedChar(c: char, current: string, tail: string)
    ensures ParseFrom(DoubleQuote(c) + tail, current, true) == ParseFrom(tail, current + [c], true)
  {
    var text := DoubleQuote(c) + tail;
    if c == '"' {
      assert text[2..] == tail && [c] == "\"";
    } else {
      assert text[1..] == tail;
    }
  }

  lemma CloseQuotes(current: string, rest: string)
    requires rest == "" || rest[0] != '"'
    ensures ParseFrom("\"" + rest, current, true) == ParseFrom(rest, current, false)
  {
    assert ("\"" + rest)[1..] == rest;
  }

  /** Inside quotes the doubled form of a field is read back up to the closing quote. */
  lemma {:induction false} ReadInsideQuotes(field: string, current: string, rest: string)
    requires rest == "" || rest[0] != '"'
    ensures ParseFrom(DoubleQuotes(field) + "\"" + rest, current, true) == ParseFrom(rest, current + field, false)
    decreases |field|
  {
    if field == "" {
      CloseQuotes(current, rest);
      assert DoubleQuotes(field) + "\"" + rest == "\"" + rest && current + field == current;
    } else {
      var head, inner := DoubleQuote(field[0]), DoubleQuotes(field[1..]);
      ReadQuotedChar(field[0], current, inner + "\"" + rest);
      ReadInsideQuotes(field[1..], current + [field[0]], rest);
      ConcatAssoc(head, inner, "\"");
      ConcatAssoc(head, inner + "\"", rest);
      ConcatAssoc(current, [field[0]], field[1..]);
      assert field == [field[0]] + field[1..];
    }
  }

  lemma ReadField(field: string, rest: string)
    requires rest == "" || rest[0] != '"'
    ensures ParseFrom(WriteField(field) + rest, "", false) == ParseFrom(rest, field, false)
  {
    var text := WriteField(field) + rest;
    assert text[1..] == DoubleQuotes(field) + "\"" + rest;
    ReadInsideQuotes(field, "", rest);
    assert "" + field == field;
  }

  /** For every non-empty list of fields: reading the written line gives each field back, trimmed. */
  lemma {:induction false} ReadLineTrims(fields: seq<string>)
    requires fields != []
    ensures ParseFrom(WriteLine(fields), "", false) == TrimEach(fields)
    decreases |fields|
  {
    if |fields| == 1 {
      ReadField(fields[0], "");
      assert WriteLine(fields) == WriteField(fields[0]) + "";
      assert TrimEach(fields) == [Trim(fields[0])];
    } else {
      var rest := WriteLine(fields[1..]);
      assert WriteFields(fields)[1..] == WriteFields(fields[1..]);
      assert WriteLine(fields) == WriteField(fields[0]) + ("," + rest);
      ReadField(fields[0], "," + rest);
      assert ("," + rest)[1..] == rest;
      ReadLineTrims(fields[1..]);
    }
  }

  predicate HasNoOuterSpace(field: string) {
    field == "" || (!IsWhitespace(field[0]) && !IsWhitespace(field[|field| - 1]))
  }

  /** The line gives the fields back as they were, commas, quotes and empty fields included, exactly
      when no field begins or ends with white space. */
  lemma ReadInvertsWriteIffTrimmed(fields: seq<string>)
    requires fields != []
    ensures ParseFrom(WriteLine(fields), "", false) == fields
       <==> forall i :: 0 <= i < |fields| ==> HasNoOuterSpace(fields[i])
  {
    ReadLineTrims(fields);
    forall i | 0 <= i < |fields| ensures Trim(fields[i]) == fields[i] <==> HasNoOuterSpace(fields[i]) {
      TrimmedIffEndsDoNotMatch(fields[i], IsWhitespace);
    }
    if TrimEach(fields) == fields {
      assert forall i :: 0 <= i < |fields| ==> TrimEach(fields)[i] == fields[i];
    }
  }

  // ---------------------------------------------------------------- any spelling of a line

  /** A stretch of a field as it may stand in a line: characters as they are, or between quotes. */
  datatype Piece = Bare(text: string) | Quoted(text: string)

  function Spell(piece: Piece): string {
    match piece
    case Bare(text) => text
    case Quoted(text) => WriteField(text)
  }

  function SpellField(pieces: seq<Piece>): string {
    if pieces == [] then "" else Spell(pieces[0]) + SpellField(pieces[1..])
  }

  function FieldText(pieces: seq<Piece>): string {
    if pieces == [] then "" else pieces[0].text + FieldText(pieces[1..])
  }

  /** Outside quotes there is no comma and no quote, and two stretches between quotes have something between
      them: without it the quotes in the middle would be a doubled one. */
  predicate CanStand(pieces: seq<Piece>) {
    && (forall i :: 0 <= i < |pieces| && pieces[i].Bare? ==> pieces[i].text != "" && '"' !in pieces[i].text && ',' !in pieces[i].text)
    && (forall i :: 0 < i < |pieces| ==> pieces[i - 1].Bare? || pieces[i].Bare?)
  }

  /** The fields with commas between them. */
  function SpellLine(fields: seq<seq<Piece>>): string {
    if fields == [] then ""
    else if |fields| == 1 then SpellField(fields[0])
    else SpellField(fields[0]) + ("," + SpellLine(fields[1..]))
  }

  /** The texts of the fields, without outer white space. */
  function TrimmedTexts(fields: seq<seq<Piece>>): (texts: seq<string>)
    ensures |texts| == |fields|
    ensures forall i :: 0 <= i < |fields| ==> texts[i] == Trim(FieldText(fields[i]))
  {
    if fields == [] then [] else [Trim(FieldText(fields[0]))] + TrimmedTexts(fields[1..])
  }

  lemma {:induction false} ReadBare(text: string, current: string, rest: string)
    requires '"' !in text && ',' !in text
    ensures ParseFrom(text + rest, current, false) == ParseFrom(rest, current + text, false)
    decreases |text|
  {
    if text == "" {
      assert text + rest == rest && current + text == current;
    } else {
      var tail := text[1..];
      assert text == [text[0]] + tail && text[0] in text;
      assert (text + rest)[1..] == tail + rest;
      ReadBare(tail, current + [text[0]], rest);
      ConcatAssoc(current, [text[0]], tail);
    }
  }

  lemma ReadQuoted(text: string, current: string, rest: string)
    requires rest == "" || rest[0] != '"'
    ensures ParseFrom(WriteField(text) + rest, current, false) == ParseFrom(rest, current + text, false)
  {
    assert (WriteField(text) + rest)[1..] == DoubleQuotes(text) + "\"" + rest;
    ReadInsideQuotes(text, current, rest);
  }

  /** Pieces other than one between quotes begin with no quote. */
  lemma SpelledStart(pieces: seq<Piece>, rest: string)
    requires CanStand(pieces) && (pieces == [] || pieces[0].Bare?) && (rest == "" || rest[0] != '"')
    ensures SpellField(pieces) + rest == "" || (SpellField(pieces) + rest)[0] != '"'
  {
    if pieces != [] {
      assert pieces[0].text[0] in pieces[0].text;
      assert (SpellField(pieces) + rest)[0] == pieces[0].text[0];
    }
  }

  lemma {:induction false} ReadPieces(pieces: seq<Piece>, current: string, rest: string)
    requires CanStand(pieces) && (rest == "" || rest[0] != '"')
    ensures ParseFrom(SpellField(pieces) + rest, current, false) == ParseFrom(rest, current + FieldText(pieces), false)
    decreases |pieces|
  {
    if pieces == [] {
      assert SpellField(pieces) + rest == rest && current + FieldText(pieces) == current;
    } else {
      var piece, more := pieces[0], pieces[1..];
      var tail := SpellField(more) + rest;
      ConcatAssoc(Spell(piece), SpellField(more), rest);
      if piece.Bare? {
        ReadBare(piece.text, current, tail);
      } else {
        SpelledStart(more, rest);
        ReadQuoted(piece.text, current, tail);
      }
      ReadPieces(more, current + piece.text, rest);
      ConcatAssoc(current, piece.text, FieldText(more));
    }
  }

  /** A field and the comma behind it. */
  lemma ReadFirstField(pieces: seq<Piece>, rest: string)
    requires CanStand(pieces)
    ensures ParseFrom(SpellField(pieces), "", false) == [Trim(FieldText(pieces))]
    ensures ParseFrom(SpellField(pieces) + ("," + rest), "", false) == [Trim(FieldText(pieces))] + ParseFrom(rest, "", false)
  {
    ReadPieces(pieces, "", "");
    assert SpellField(pieces) + "" == SpellField(pieces);
    ReadPieces(pieces, "", "," + rest);
    assert "" + FieldText(pieces) == FieldText(pieces);
    assert ("," + rest)[1..] == rest;
  }

  /** For every line whose quotes are closed, however its fields are spelled, quoted in whole, in part or not
      at all: a field ends at a comma outside quotes, and is read as its text without outer white space. */
  lemma {:induction false} ReadAnySpelling(fields: seq<seq<Piece>>)
    requires fields != [] && forall i :: 0 <= i < |fields| ==> CanStand(fields[i])
    ensures ParseFrom(SpellLine(fields), "", false) == TrimmedTexts(fields)
    decreases |fields|
  {
    if |fields| == 1 {
      ReadFirstField(fields[0], "");
    } else {
      ReadFirstField(fields[0], SpellLine(fields[1..]));
      ReadAnySpelling(fields[1..]);
    }
  }

  lemma {:induction false} ReadUnclosed(text: string, current: string)
    ensures ParseFrom(DoubleQuotes(text), current, true) == [Trim(current + text)]
    decreases |text|
  {
    if text == "" {
      assert current + text == current;
    } else {
      ReadQuotedChar(text[0], current, DoubleQuotes(text[1..]));
      ReadUnclosed(text[1..], current + [text[0]]);
      ConcatAssoc(current, [text[0]], text[1..]);
      assert text == [text[0]] + text[1..];
    }
  }

  /** Quotes that are never closed take in the rest of the line, commas included. */
  lemma UnclosedQuotesTakeRest(pieces: seq<Piece>, text: string)
    requires CanStand(pieces) && (pieces == [] || pieces[|pieces| - 1].Bare?)
    ensures ParseFrom(SpellField(pieces) + ("\"" + DoubleQuotes(text)), "", false) == [Trim(FieldText(pieces) + text)]
  {
    var rest := "\"" + DoubleQuotes(text);
    ReadPiecesBeforeQuote(pieces, "", rest);
    assert rest[1..] == DoubleQuotes(text);
    ReadUnclosed(text, "" + FieldText(pieces));
    assert "" + FieldText(pieces) == FieldText(pieces);
  }

  /** Pieces that end outside quotes are read whatever follows. */
  lemma {:induction false} ReadPiecesBeforeQuote(pieces: seq<Piece>, current: string, rest: string)
    requires CanStand(pieces) && (pieces == [] || pieces[|pieces| - 1].Bare?)
    ensures ParseFrom(SpellField(pieces) + rest, current, false) == ParseFrom(rest, current + FieldText(pieces), false)
    decreases |pieces|
  {
    if pieces == [] {
      assert SpellField(pieces) + rest == rest && current + FieldText(pieces) == current;
    } else {
      var piece, more := pieces[0], pieces[1..];
      var tail := SpellField(more) + rest;
      ConcatAssoc(Spell(piece), SpellField(more), rest);
      if piece.Bare? {
        ReadBare(piece.text, current, tail);
      } else {
        assert more[0].Bare? && more[0].text[0] in more[0].text;
        assert tail[0] == more[0].text[0];
        ReadQuoted(piece.text, current, tail);
      }
      ReadPiecesBeforeQuote(more, current + piece.text, rest);
      ConcatAssoc(current, piece.text, FieldText(more));
    }
  }
}
