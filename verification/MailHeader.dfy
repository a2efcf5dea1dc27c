/** The header section of a message, section 2.2 of RFC 5322, split as the mail reader splits
    it: physical lines, folded lines joined by one space, names cut at the first colon. */
module MailHeader {
  import opened Octets

  datatype Field = Field(name: Bytes, value: Bytes)
  datatype Message = Message(fields: seq<Field>, body: Bytes)

  /** The first physical line, without its line end, and what follows it. */
  function Line(raw: Bytes): (r: (Bytes, Bytes))
    requires raw != []
    ensures |r.1| < |raw|
  {
    var i := Find(raw, LF);
    if i == |raw| then (raw, [])
    else if i > 0 && raw[i - 1] == CR then (raw[..i - 1], raw[i + 1..])
    else (raw[..i], raw[i + 1..])
  }

  predicate OpensFolded(raw: Bytes) { raw != [] && IsBlank(raw[0]) }

  /** A logical line begun in acc, completed by the folded lines that follow it. */
  function Unfold(acc: Bytes, raw: Bytes): (r: (Bytes, Bytes))
    ensures |r.1| <= |raw|
    decreases |raw|
  {
    if !OpensFolded(raw) then (acc, raw)
    else Unfold(acc + [' '] + TrimBlanks(Line(raw).0), Line(raw).1)
  }

  /** A line split at its first colon. */
  function Cut(kv: Bytes): Option<Field> {
    var i := Find(kv, ':');
    if i == |kv| then None else Some(Field(kv[..i], TrimLeftBy(kv[i + 1..], IsBlank)))
  }

  /** Fields up to the first blank line; None for a line without a colon.  A header that the
      input ends before the blank line is accepted, with an empty body. */
  function ReadFields(raw: Bytes): Option<Message>
    decreases |raw|
  {
    if raw == [] then Some(Message([], []))
    else
      var (line, rest) := Line(raw);
      if line == [] then Some(Message([], rest))
      else
        var (kv, rest') := Unfold(TrimBlanks(line), rest);
        var field := Cut(kv);
        if field.None? then None
        else
          var m := ReadFields(rest');
          if m.None? then None else Some(Message([field.value] + m.value.fields, m.value.body))
  }

  /** The mail reader: it also refuses an empty input and an initial folded line. */
  function Read(raw: Bytes): Option<Message> {
    if raw == [] || OpensFolded(raw) then None else ReadFields(raw)
  }

  /** The value of the first field of that name, ignoring case, or the empty string. */
  function Get(fields: seq<Field>, name: Bytes): Bytes {
    if fields == [] then []
    else if EqualFold(fields[0].name, name) then fields[0].value
    else Get(fields[1..], name)
  }

  /* ---- Writing a header and reading it back ---- */

  function WriteField(f: Field): Bytes { f.name + [':', ' '] + f.value + CRLF }

  function WriteFields(fs: seq<Field>): Bytes {
    if fs == [] then [] else WriteField(fs[0]) + WriteFields(fs[1..])
  }

  /** A field that survives the wire: no line end in it, no blank at an edge, no colon in its
      name. */
  ghost predicate Clean(f: Field) {
    && f.name != [] && !IsBlank(f.name[0])
    && (forall i :: 0 <= i < |f.name| ==> f.name[i] != ':' && f.name[i] != CR && f.name[i] != LF)
    && f.value != [] && !IsBlank(f.value[0]) && !IsBlank(f.value[|f.value| - 1])
    && (forall i :: 0 <= i < |f.value| ==> f.value[i] != CR && f.value[i] != LF)
  }

  lemma LineOfText(text: Bytes, rest: Bytes)
    requires forall i :: 0 <= i < |text| ==> text[i] != LF
    ensures Line(text + CRLF + rest) == (text, rest)
  {
    var raw := text + CRLF + rest;
    assert forall i :: 0 <= i < |text| ==> raw[i] == text[i];
    assert raw[|text|] == CR && raw[|text| + 1] == LF;
    assert Find(raw, LF) == |text| + 1;
    assert raw[..|text|] == text && raw[|text| + 2..] == rest;
  }

  lemma CutField(f: Field)
    requires Clean(f)
    ensures Cut(f.name + [':', ' '] + f.value) == Some(f)
  {
    var kv := f.name + [':', ' '] + f.value;
    var n := |f.name|;
    assert forall i :: 0 <= i < n ==> kv[i] == f.name[i];
    assert kv[n] == ':';
    assert Find(kv, ':') == n;
    assert kv[..n] == f.name;
    assert kv[n + 1..] == [' '] + f.value;
    assert ([' '] + f.value)[1..] == f.value;
  }

  lemma ReadOne(f: Field, rest: Bytes)
    requires Clean(f) && !OpensFolded(rest)
    ensures ReadFields(rest).Some? ==>
              ReadFields(WriteField(f) + rest)
              == Some(Message([f] + ReadFields(rest).value.fields, ReadFields(rest).value.body))
  {
    var kv := f.name + [':', ' '] + f.value;
    assert WriteField(f) + rest == kv + CRLF + rest;
    LineOfText(kv, rest);
    assert kv[0] == f.name[0] && kv[|kv| - 1] == f.value[|f.value| - 1];
    assert TrimBlanks(kv) == kv;
    CutField(f);
  }

  lemma ReadEmpty(body: Bytes)
    ensures ReadFields(CRLF + body) == Some(Message([], body))
  {
    LineOfText([], body);
    assert [] + CRLF + body == CRLF + body;
  }

  lemma {:induction false} ReadWritten(fs: seq<Field>, body: Bytes)
    requires forall i :: 0 <= i < |fs| ==> Clean(fs[i])
    ensures ReadFields(WriteFields(fs) + CRLF + body) == Some(Message(fs, body))
    ensures !OpensFolded(WriteFields(fs) + CRLF + body)
  {
    hide ReadFields;
    if fs == [] {
      ReadEmpty(body);
      assert WriteFields(fs) + CRLF + body == CRLF + body;
    } else {
      var rest := WriteFields(fs[1..]) + CRLF + body;
      ReadWritten(fs[1..], body);
      ReadOne(fs[0], rest);
      assert WriteFields(fs) + CRLF + body == WriteField(fs[0]) + rest;
      assert WriteField(fs[0])[0] == fs[0].name[0];
      assert [fs[0]] + fs[1..] == fs;
    }
  }

  /** A header that ends with the input, without an empty line, reads the same with no body. */
  lemma {:induction false} ReadUnclosed(fs: seq<Field>)
    requires forall i :: 0 <= i < |fs| ==> Clean(fs[i])
    ensures ReadFields(WriteFields(fs)) == Some(Message(fs, []))
    ensures !OpensFolded(WriteFields(fs))
  {
    hide Clean;
    if fs == [] {
      ReadNothing();
    } else {
      var rest := WriteFields(fs[1..]);
      ReadUnclosed(fs[1..]);
      ReadOne(fs[0], rest);
      WrittenOpens(fs[0], rest);
      hide ReadFields;
      assert [fs[0]] + fs[1..] == fs;
    }
  }

  lemma ReadNothing()
    ensures ReadFields([]) == Some(Message([], []))
  {
  }

  lemma WrittenOpens(f: Field, rest: Bytes)
    requires Clean(f)
    ensures WriteField(f) + rest != [] && !OpensFolded(WriteField(f) + rest)
  {
    assert (WriteField(f) + rest)[0] == f.name[0];
  }

  lemma ColonlessLine(line: Bytes, rest: Bytes)
    requires line != [] && !IsBlank(line[0]) && !IsBlank(line[|line| - 1])
    requires (forall i :: 0 <= i < |line| ==> line[i] != LF && line[i] != ':') && !OpensFolded(rest)
    ensures ReadFields(line + CRLF + rest).None? && !OpensFolded(line + CRLF + rest)
  {
    LineOfText(line, rest);
    assert TrimBlanks(line) == line;
    assert Cut(line).None?;
    ReadsAs(line + CRLF + rest, line, rest, line, rest);
    assert (line + CRLF + rest)[0] == line[0];
  }

  /** What the reader refuses: no input, an initial folded line, and after any good fields a
      line without a colon. */
  lemma {:induction false} RefusesBadLine(fs: seq<Field>, line: Bytes, rest: Bytes)
    requires forall i :: 0 <= i < |fs| ==> Clean(fs[i])
    requires line != [] && !IsBlank(line[0]) && !IsBlank(line[|line| - 1])
    requires (forall i :: 0 <= i < |line| ==> line[i] != LF && line[i] != ':') && !OpensFolded(rest)
    ensures var raw := WriteFields(fs) + line + CRLF + rest; ReadFields(raw).None? && !OpensFolded(raw)
  {
    hide Clean, ReadFields;
    if fs == [] {
      ColonlessLine(line, rest);
      assert WriteFields(fs) + line + CRLF + rest == line + CRLF + rest;
    } else {
      var more := WriteFields(fs[1..]) + line + CRLF + rest;
      RefusesBadLine(fs[1..], line, rest);
      assert WriteFields(fs) + line + CRLF + rest == WriteField(fs[0]) + more;
      WrittenOpens(fs[0], more);
      RefusesAfter(fs[0], more);
    }
  }

  lemma RefusesBadStart(rest: Bytes)
    ensures Read([]).None? && Read([' '] + rest).None? && Read(['\t'] + rest).None?
  {
  }

  lemma RefusesAfter(f: Field, rest: Bytes)
    requires Clean(f) && !OpensFolded(rest) && ReadFields(rest).None?
    ensures ReadFields(WriteField(f) + rest).None?
  {
    WrittenReads(f, rest);
    hide ReadFields;
  }

  /** A bare LF ends a line as well as CR LF does. */
  lemma BareLfEndsLine(text: Bytes, rest: Bytes)
    requires (forall i :: 0 <= i < |text| ==> text[i] != LF) && (text == [] || text[|text| - 1] != CR)
    ensures Line(text + [LF] + rest) == Line(text + CRLF + rest) == (text, rest)
  {
    LineOfText(text, rest);
    var raw := text + [LF] + rest;
    assert forall i :: 0 <= i < |text| ==> raw[i] == text[i];
    assert raw[|text|] == LF;
    assert Find(raw, LF) == |text|;
    assert raw[..|text|] == text && raw[|text| + 1..] == rest;
  }

  /* ---- What follows the blank line does not matter ---- */

  /** A complete blank line occurs in raw. */
  predicate HasBlankLine(raw: Bytes)
    decreases |raw|
  {
    raw != [] && Find(raw, LF) < |raw| && (Line(raw).0 == [] || HasBlankLine(Line(raw).1))
  }

  lemma FindPrefix(a: Bytes, b: Bytes, c: Octet, from: nat := 0)
    requires from <= |a| && Find(a, c, from) < |a|
    ensures Find(a + b, c, from) == Find(a, c, from)
  {
    assert forall k :: 0 <= k < |a| ==> (a + b)[k] == a[k];
  }

  lemma SlicePrefix(a: Bytes, b: Bytes, n: nat)
    requires n <= |a|
    ensures (a + b)[..n] == a[..n] && (a + b)[n..] == a[n..] + b
  {
  }

  lemma LinePrefix(a: Bytes, b: Bytes)
    requires a != [] && Find(a, LF) < |a|
    ensures Line(a + b) == (Line(a).0, Line(a).1 + b)
  {
    FindPrefix(a, b, LF);
    var i := Find(a, LF);
    hide Find;
    SlicePrefix(a, b, i);
    SlicePrefix(a, b, i + 1);
    if i > 0 {
      SlicePrefix(a, b, i - 1);
      assert (a + b)[i - 1] == a[i - 1];
    }
  }

  lemma {:induction false} UnfoldPrefix(acc: Bytes, a: Bytes, b: Bytes)
    requires HasBlankLine(a)
    ensures Unfold(acc, a + b) == (Unfold(acc, a).0, Unfold(acc, a).1 + b)
    ensures HasBlankLine(Unfold(acc, a).1)
    decreases |a|
  {
    assert OpensFolded(a + b) == OpensFolded(a);
    if OpensFolded(a) {
      LinePrefix(a, b);
      UnfoldPrefix(acc + [' '] + TrimBlanks(Line(a).0), Line(a).1, b);
    }
  }

  /** Whatever the body, a closed header reads the same. */
  lemma {:induction false} ReadFieldsPrefix(a: Bytes, b: Bytes)
    requires HasBlankLine(a)
    ensures ReadFields(a).None? <==> ReadFields(a + b).None?
    ensures ReadFields(a).Some? ==>
              ReadFields(a + b) == Some(Message(ReadFields(a).value.fields, ReadFields(a).value.body + b))
    decreases |a|
  {
    LinePrefix(a, b);
    var (line, rest) := Line(a);
    if line != [] {
      var acc := TrimBlanks(line);
      UnfoldPrefix(acc, rest, b);
      var (kv, rest') := Unfold(acc, rest);
      ReadFieldsPrefix(rest', b);
    }
  }

  lemma UnfoldOne(first: Bytes, tail: Bytes, rest: Bytes)
    requires tail != [] && !IsBlank(tail[0]) && !IsBlank(tail[|tail| - 1]) && !OpensFolded(rest)
    requires forall i :: 0 <= i < |tail| ==> tail[i] != LF
    ensures Unfold(first, [' '] + tail + CRLF + rest) == (first + [' '] + tail, rest)
  {
    var second := [' '] + tail;
    LineOfText(second, rest);
    assert second[1..] == tail;
    assert TrimBlanks(second) == tail;
    var raw := second + CRLF + rest;
    assert OpensFolded(raw);
    assert Unfold(first + [' '] + tail, rest) == (first + [' '] + tail, rest);
  }

  lemma FieldText(name: Bytes, value: Bytes)
    requires Clean(Field(name, value))
    ensures var kv := name + [':', ' '] + value; kv != [] && TrimBlanks(kv) == kv && forall i :: 0 <= i < |kv| ==> kv[i] != LF
  {
    var kv := name + [':', ' '] + value;
    assert kv[0] == name[0] && kv[|kv| - 1] == value[|value| - 1];
  }

  /** What the reader does with a logical line and the text after it. */
  function AfterLine(kv: Bytes, rest: Bytes): Option<Message> {
    var field, m := Cut(kv), ReadFields(rest);
    if field.None? || m.None? then None
    else Some(Message([field.value] + m.value.fields, m.value.body))
  }

  lemma ReadsAs(raw: Bytes, line: Bytes, rest: Bytes, kv: Bytes, rest': Bytes)
    requires raw != [] && Line(raw) == (line, rest) && line != []
    requires Unfold(TrimBlanks(line), rest) == (kv, rest')
    ensures ReadFields(raw) == AfterLine(kv, rest')
  {
    hide Line, Unfold, TrimBlanks;
  }

  lemma WrittenReads(f: Field, rest: Bytes)
    requires Clean(f) && !OpensFolded(rest)
    ensures ReadFields(WriteField(f) + rest) == AfterLine(f.name + [':', ' '] + f.value, rest)
  {
    var kv := f.name + [':', ' '] + f.value;
    FieldText(f.name, f.value);
    LineOfText(kv, rest);
    assert WriteField(f) + rest == kv + CRLF + rest;
    hide TrimBlanks, Line, ReadFields, Clean;
    ReadsAs(kv + CRLF + rest, kv, rest, kv, rest);
  }

  lemma FoldedReads(first: Bytes, tail: Bytes, rest: Bytes)
    requires first != [] && TrimBlanks(first) == first && forall i :: 0 <= i < |first| ==> first[i] != LF
    requires tail != [] && !IsBlank(tail[0]) && !IsBlank(tail[|tail| - 1]) && !OpensFolded(rest)
    requires forall i :: 0 <= i < |tail| ==> tail[i] != LF
    ensures ReadFields(first + CRLF + ([' '] + tail + CRLF + rest)) == AfterLine(first + [' '] + tail, rest)
  {
    hide TrimBlanks, Line, ReadFields, Unfold;
    var more := [' '] + tail + CRLF + rest;
    LineOfText(first, more);
    UnfoldOne(first, tail, rest);
    ReadsAs(first + CRLF + more, first, more, first + [' '] + tail, rest);
  }

  /** A field folded at a space, as relays fold long lines, reads as the unfolded field. */
  lemma FoldedFieldReads(f: Field, head: Bytes, tail: Bytes, rest: Bytes)
    requires Clean(f) && f.value == head + [' '] + tail
    requires Clean(f.(value := head)) && Clean(f.(value := tail)) && !OpensFolded(rest)
    ensures ReadFields(f.name + [':', ' '] + head + CRLF + ([' '] + tail + CRLF + rest))
            == ReadFields(WriteField(f) + rest)
  {
    hide TrimBlanks, ReadFields, AfterLine, WriteField;
    FieldText(f.name, head);
    WrittenReads(f, rest);
    FoldedReads(f.name + [':', ' '] + head, tail, rest);
    assert f.name + [':', ' '] + head + [' '] + tail == f.name + [':', ' '] + f.value;
  }
}
