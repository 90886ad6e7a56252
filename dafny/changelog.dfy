/**
  * The change log kept when an administrator edits a person: how the
  * edited fields are collected into a dictionary of previous and new
  * values, and how that dictionary is rendered into an observation's
  * description and text.
  */
module Changelog {
  import opened Wrappers
  import opened Text

  /** The value of one dictionary entry: its 'anterior' and 'nuevo' keys,
      either of which may be missing. */
  datatype Change = Change(before: Option<string>, after: Option<string>)

  /** One dictionary entry, in insertion order. */
  datatype Entry = Entry(field: string, change: Change)

  /** A missing key is shown as 'N/A'. */
  function ShownOrNA(v: Option<string>): string {
    if v.Some? then v.value else "N/A"
  }

  /** The description line of one entry. */
  function ChangeLine(e: Entry): string {
    e.field + ": '" + ShownOrNA(e.change.before) + "' → '" + ShownOrNA(e.change.after) + "'"
  }

  /** One line per entry, in dictionary order. */
  function Lines(entries: seq<Entry>): (r: seq<string>)
    ensures |r| == |entries|
    ensures forall i :: 0 <= i < |entries| ==> r[i] == ChangeLine(entries[i])
  {
    if entries == [] then [] else Lines(entries[..|entries| - 1]) + [ChangeLine(entries[|entries| - 1])]
  }

  /** The `descripcion_cambio` of the observation. */
  function Description(entries: seq<Entry>): string {
    Join(Lines(entries), "\n")
  }

  lemma {:induction false} JoinAppend(parts: seq<string>, p: string, sep: string)
    requires parts != []
    ensures Join(parts + [p], sep) == Join(parts, sep) + sep + p
    decreases |parts|
  {
    if |parts| == 1 {
      assert parts + [p] == [parts[0], p];
    } else {
      assert (parts + [p])[1..] == parts[1..] + [p];
      JoinAppend(parts[1..], p, sep);
    }
  }

  /** The description grows by one line per entry: a single entry gives
      its own line, and each further entry adds a newline and its line. */
  lemma DescriptionAppend(entries: seq<Entry>, e: Entry)
    ensures entries == [] ==> Description([e]) == ChangeLine(e)
    ensures entries != [] ==> Description(entries + [e]) == Description(entries) + "\n" + ChangeLine(e)
  {
    assert (entries + [e])[..|entries|] == entries;
    if entries != [] {
      JoinAppend(Lines(entries), ChangeLine(e), "\n");
    }
  }

  /** The loop of `registrar_cambio` that builds the description. */
  method DescribeChanges(entries: seq<Entry>) returns (d: string)
    ensures d == Description(entries)
  {
    var parts: seq<string> := [];
    var i := 0;
    while i < |entries|
      invariant 0 <= i <= |entries|
      invariant parts == Lines(entries[..i])
    {
      assert entries[..i + 1][..i] == entries[..i];
      parts := parts + [ChangeLine(entries[i])];
      i := i + 1;
    }
    assert entries[..i] == entries;
    d := Join(parts, "\n");
  }

  /** The name credited with a change: the full name, or the user name
      when the full name is empty. */
  function ActorName(fullName: string, username: string): (r: string)
    ensures r == fullName || (fullName == "" && r == username)
    ensures fullName != "" ==> r == fullName
  {
    if fullName != "" then fullName else username
  }

  /** The `observacion` text of a logged change. */
  function ObservationText(action: string, fullName: string, username: string): (r: string)
    ensures StartsWith(r, "[" + Upper(action) + "] Cambios realizados por ")
    ensures r[|"[" + Upper(action) + "] Cambios realizados por "|..] == ActorName(fullName, username)
  {
    var head := "[" + Upper(action) + "] Cambios realizados por ";
    var r := head + ActorName(fullName, username);
    assert r[..|head|] == head;
    r
  }

  // ---------------------------------------------------------------------
  // Collecting the changes of an edit

  /** A field value as `editar_persona` sees it: a plain value with its
      `str()` text and whether it is truthy, a file with its name (empty
      for no file), or the `False` a cleared file input yields. */
  datatype FieldValue = Plain(text: string, truthy: bool) | Upload(name: string) | Cleared

  /** How a value is written into the log: a file by its name or 'Sin
      archivo', any other falsy value as ''. */
  function Render(v: FieldValue): (r: string)
    ensures r == "" <==> v == Cleared || (v.Plain? && (!v.truthy || v.text == ""))
    ensures v.Upload? ==> r == (if v.name == "" then "Sin archivo" else v.name)
  {
    match v
    case Plain(t, b) => if b then t else ""
    case Upload(n) => if n == "" then "Sin archivo" else n
    case Cleared => ""
  }

  /** The dictionary key of a changed field: the model's label, a dot, the
      field name. */
  function ChangeKey(prefix: string, field: string): string {
    prefix + "." + field
  }

  /** Under one prefix distinct fields get distinct keys, so the dictionary
      keeps one entry per changed field. */
  lemma ChangeKeyInjective(prefix: string, f: string, g: string)
    requires ChangeKey(prefix, f) == ChangeKey(prefix, g)
    ensures f == g
  {
    var n := |prefix| + 1;
    assert f == ChangeKey(prefix, f)[n..];
    assert g == ChangeKey(prefix, g)[n..];
  }

  /** The entries an edit logs, one per changed field, taking the previous
      value from `before` and the new one from `after`. */
  function EditEntries(prefix: string, fields: seq<string>, before: map<string, FieldValue>,
                       after: map<string, FieldValue>): (r: seq<Entry>)
    requires forall i :: 0 <= i < |fields| ==> fields[i] in before && fields[i] in after
    ensures |r| == |fields|
    ensures forall i :: 0 <= i < |fields| ==>
              r[i] == Entry(ChangeKey(prefix, fields[i]),
                            Change(Some(Render(before[fields[i]])), Some(Render(after[fields[i]]))))
  {
    if fields == [] then []
    else
      var f := fields[|fields| - 1];
      EditEntries(prefix, fields[..|fields| - 1], before, after) +
        [Entry(ChangeKey(prefix, f), Change(Some(Render(before[f])), Some(Render(after[f]))))]
  }

  /** Distinct changed fields give an entry list with distinct keys. */
  lemma EditEntriesKeysDistinct(prefix: string, fields: seq<string>, before: map<string, FieldValue>,
                                after: map<string, FieldValue>)
    requires forall i :: 0 <= i < |fields| ==> fields[i] in before && fields[i] in after
    requires forall i, j :: 0 <= i < j < |fields| ==> fields[i] != fields[j]
    ensures var r := EditEntries(prefix, fields, before, after);
            forall i, j :: 0 <= i < j < |r| ==> r[i].field != r[j].field
  {
    var r := EditEntries(prefix, fields, before, after);
    forall i, j | 0 <= i < j < |r|
      ensures r[i].field != r[j].field
    {
      if r[i].field == r[j].field {
        ChangeKeyInjective(prefix, fields[i], fields[j]);
      }
    }
  }

  /** The collection loop of `editar_persona` over the changed fields,
      reading each previous value from `before` (the values the record held
      when the edit began) and each new value from `after` (the cleaned
      form data). */
  method CollectChanges(prefix: string, fields: seq<string>, before: map<string, FieldValue>,
                        after: map<string, FieldValue>) returns (entries: seq<Entry>)
    requires forall i :: 0 <= i < |fields| ==> fields[i] in before && fields[i] in after
    ensures entries == EditEntries(prefix, fields, before, after)
  {
    entries := [];
    var i := 0;
    while i < |fields|
      invariant 0 <= i <= |fields|
      invariant entries == EditEntries(prefix, fields[..i], before, after)
    {
      var f := fields[i];
      assert fields[..i + 1][..i] == fields[..i];
      entries := entries + [Entry(ChangeKey(prefix, f), Change(Some(Render(before[f])), Some(Render(after[f]))))];
      i := i + 1;
    }
    assert fields[..i] == fields;
  }

  /** What a record field holds once form validation has copied the
      cleaned value onto it: the cleaned value, a cleared file becoming an
      empty file. */
  function Assigned(v: FieldValue): FieldValue {
    if v == Cleared then Upload("") else v
  }

  /** The record after form validation: every cleaned field copied onto
      the values it held before. */
  function InstanceAfterValidation(snapshot: map<string, FieldValue>, cleaned: map<string, FieldValue>)
    : (r: map<string, FieldValue>)
    ensures r.Keys == snapshot.Keys + cleaned.Keys
    ensures forall f :: f in cleaned ==> r[f] == Assigned(cleaned[f])
  {
    map f | f in snapshot.Keys + cleaned.Keys :: if f in cleaned then Assigned(cleaned[f]) else snapshot[f]
  }

  /** The entries as `editar_persona` collects them: the previous value is
      read from the record after the form has been validated, by which
      point the record already holds the new value. */
  function EditEntriesAsWritten(prefix: string, fields: seq<string>, snapshot: map<string, FieldValue>,
                                cleaned: map<string, FieldValue>): seq<Entry>
    requires forall i :: 0 <= i < |fields| ==> fields[i] in snapshot && fields[i] in cleaned
  {
    EditEntries(prefix, fields, InstanceAfterValidation(snapshot, cleaned), cleaned)
  }

  /** As written, the log never shows a previous value: each entry's
      'anterior' equals its 'nuevo', except for a cleared file, logged as
      going from 'Sin archivo' to ''. */
  lemma AsWrittenLogsNewValueTwice(prefix: string, fields: seq<string>, snapshot: map<string, FieldValue>,
                                   cleaned: map<string, FieldValue>)
    requires forall i :: 0 <= i < |fields| ==> fields[i] in snapshot && fields[i] in cleaned
    ensures var r := EditEntriesAsWritten(prefix, fields, snapshot, cleaned);
            forall i :: 0 <= i < |fields| ==>
              r[i].change.before == (if cleaned[fields[i]] == Cleared then Some("Sin archivo") else r[i].change.after)
  {
  }

  /** Renaming a person from "Ana" to "Ana María" is logged as written with
      the new name on both sides; the corrected collection, reading the
      values held before validation, logs the old name as 'anterior'. */
  lemma StalePreviousValueExample()
    ensures EditEntriesAsWritten("Persona", ["nombre"], map["nombre" := Plain("Ana", true)],
                                 map["nombre" := Plain("Ana María", true)])
            == [Entry("Persona.nombre", Change(Some("Ana María"), Some("Ana María")))]
    ensures EditEntries("Persona", ["nombre"], map["nombre" := Plain("Ana", true)],
                        map["nombre" := Plain("Ana María", true)])
            == [Entry("Persona.nombre", Change(Some("Ana"), Some("Ana María")))]
  {
    var cleaned := map["nombre" := Plain("Ana María", true)];
    var after := InstanceAfterValidation(map["nombre" := Plain("Ana", true)], cleaned);
    assert after["nombre"] == Plain("Ana María", true);
    assert ChangeKey("Persona", "nombre") == "Persona.nombre";
    var r := EditEntries("Persona", ["nombre"], after, cleaned);
    assert r[0] == Entry("Persona.nombre", Change(Some("Ana María"), Some("Ana María")));
  }
}
