/**
 * The in-memory registries of open files and of text history.  Each is a
 * static `HashMap` in the editor, keyed by a file's UUID (in its string
 * form); here each is a class holding the map as a field that its methods
 * reassign.
 *
 * The map operations the registries call (`get`, `put`, `putIfAbsent`,
 * `computeIfAbsent`, the conditional `replace`, `remove`) are defined once,
 * as functions on `map`, with the meaning `java.util.Map` gives them for
 * non-null values.
 */
module Registries {
  import opened Optional

  /** The `TextFile` record; the UUID is kept in the string form the maps are keyed by. */
  datatype TextFile = TextFile(uuid: string, name: string, filePath: string, text: string, saved: bool)

  // ---------------------------------------------------------------------
  // java.util.Map, for non-null values

  /** `get`: the value, or null (`None`) when the key is absent. */
  function Get<V>(m: map<string, V>, k: string): (r: Option<V>)
    ensures r.Some? <==> k in m
    ensures r.Some? ==> r.value == m[k]
  {
    if k in m then Some(m[k]) else None
  }

  /** `m` and `m'` agree on every key other than `k`. */
  ghost predicate SameElsewhere<V>(m: map<string, V>, m': map<string, V>, k: string) {
    forall j :: j != k ==> (j in m <==> j in m') && (j in m ==> m[j] == m'[j])
  }

  /** `put`: the key now maps to `v`, whatever it held before. */
  function Put<V>(m: map<string, V>, k: string, v: V): (r: map<string, V>)
    ensures Get(r, k) == Some(v)
    ensures SameElsewhere(m, r, k)
  {
    m[k := v]
  }

  /** `putIfAbsent`: a present key keeps its value; an absent one gets `v`. */
  function PutIfAbsent<V>(m: map<string, V>, k: string, v: V): (r: map<string, V>)
    ensures Get(r, k) == Some(if k in m then m[k] else v)
    ensures k in m ==> r == m
    ensures SameElsewhere(m, r, k)
  {
    if k in m then m else m[k := v]
  }

  /** `computeIfAbsent`: the mapping function is applied to the key only when the key is absent. */
  function ComputeIfAbsent<V>(m: map<string, V>, k: string, mapping: string -> V): (r: map<string, V>)
    ensures Get(r, k) == Some(if k in m then m[k] else mapping(k))
    ensures k in m ==> r == m
    ensures SameElsewhere(m, r, k)
  {
    if k in m then m else m[k := mapping(k)]
  }

  /** `replace(k, expected, v)`: only when `k` is present and maps to `expected`. */
  function ReplaceIf<V(==)>(m: map<string, V>, k: string, expected: Option<V>, v: V): (r: map<string, V>)
    ensures r.Keys == m.Keys
    ensures r != m ==> Get(m, k) == expected
    ensures expected.Some? && Get(m, k) == expected ==> Get(r, k) == Some(v)
    ensures SameElsewhere(m, r, k)
  {
    if k in m && expected == Some(m[k]) then m[k := v] else m
  }

  /** `remove`: the key is gone and every other entry stays. */
  function Remove<V>(m: map<string, V>, k: string): (r: map<string, V>)
    ensures Get(r, k) == None
    ensures SameElsewhere(m, r, k)
  {
    m - {k}
  }

  // ---------------------------------------------------------------------
  // The two updates every file registry offers

  /** `updateTextFile(id, text)`: the record under `id` gets the new text and keeps the rest. */
  function UpdateText(m: map<string, TextFile>, id: string, text: string): (r: map<string, TextFile>)
    requires id in m
    ensures id in r && r.Keys == m.Keys
    ensures r[id].text == text
    ensures r[id].uuid == m[id].uuid && r[id].name == m[id].name
    ensures r[id].filePath == m[id].filePath && r[id].saved == m[id].saved
    ensures SameElsewhere(m, r, id)
  {
    var textFile := m[id];
    ReplaceIf(m, id, Some(textFile),
              TextFile(textFile.uuid, textFile.name, textFile.filePath, text, textFile.saved))
  }

  /** `updateTextFile(id, filePath, text)`: a save; the record gets a path and a text and is marked saved. */
  function UpdateSaved(m: map<string, TextFile>, id: string, filePath: string, text: string): (r: map<string, TextFile>)
    requires id in m
    ensures id in r && r.Keys == m.Keys
    ensures r[id].filePath == filePath && r[id].text == text && r[id].saved
    ensures r[id].uuid == m[id].uuid && r[id].name == m[id].name
    ensures SameElsewhere(m, r, id)
  {
    var textFile := m[id];
    ReplaceIf(m, id, Some(textFile), TextFile(textFile.uuid, textFile.name, filePath, text, true))
  }

  /** Of two text updates to the same file the second wins. */
  lemma UpdateTextTwice(m: map<string, TextFile>, id: string, a: string, b: string)
    requires id in m
    ensures UpdateText(UpdateText(m, id, a), id, b) == UpdateText(m, id, b)
  {
    var once := UpdateText(m, id, a);
    assert once[id].(text := b) == m[id].(text := b);
  }

  /** A text update after a save keeps the file marked saved, with the saved path. */
  lemma UpdateTextAfterSave(m: map<string, TextFile>, id: string, path: string, a: string, b: string)
    requires id in m
    ensures var r := UpdateText(UpdateSaved(m, id, path, a), id, b);
            r[id].saved && r[id].filePath == path && r[id].text == b
  {
  }

  // ---------------------------------------------------------------------
  // Adding a record: three policies

  /** `putIfAbsent` (the open-files registry): once a UUID is registered, its record stays. */
  lemma PutIfAbsentKeepsFirst(m: map<string, TextFile>, first: TextFile, second: TextFile)
    requires first.uuid == second.uuid
    ensures var r := PutIfAbsent(PutIfAbsent(m, first.uuid, first), second.uuid, second);
            Get(r, first.uuid) == if first.uuid in m then Some(m[first.uuid]) else Some(first)
  {
  }

  /** `computeIfAbsent` with a mapping that returns the record behaves as `putIfAbsent`. */
  lemma ComputeIfAbsentIsPutIfAbsent(m: map<string, TextFile>, tf: TextFile)
    ensures ComputeIfAbsent(m, tf.uuid, (key: string) => tf) == PutIfAbsent(m, tf.uuid, tf)
  {
  }

  /** `put` (the older temporary-files registry): a record re-added under the same UUID replaces the first. */
  lemma PutReplacesFirst(m: map<string, TextFile>, first: TextFile, second: TextFile)
    requires first.uuid == second.uuid
    ensures Get(Put(Put(m, first.uuid, first), second.uuid, second), first.uuid) == Some(second)
  {
  }

  /** The two policies part only when the UUID is already registered with a different record. */
  lemma PutIfAbsentVersusPut(m: map<string, TextFile>, tf: TextFile)
    ensures PutIfAbsent(m, tf.uuid, tf) == Put(m, tf.uuid, tf) <==>
            (tf.uuid !in m || m[tf.uuid] == tf)
  {
    if tf.uuid in m && m[tf.uuid] != tf {
      assert Put(m, tf.uuid, tf)[tf.uuid] != PutIfAbsent(m, tf.uuid, tf)[tf.uuid];
    }
  }

  // ---------------------------------------------------------------------
  // The registries

  /** `TextFileController`: the files open in tabs. */
  class OpenedFiles {
    var files: map<string, TextFile>

    constructor ()
      ensures files == map[]
    {
      files := map[];
    }

    method AddTextFile(textFile: TextFile)
      modifies this
      ensures files == PutIfAbsent(old(files), textFile.uuid, textFile)
    {
      files := PutIfAbsent(files, textFile.uuid, textFile);
    }

    method RequestTextFile(id: string) returns (textFile: Option<TextFile>)
      ensures textFile.Some? <==> id in files
      ensures textFile.Some? ==> textFile.value == files[id]
    {
      textFile := Get(files, id);
    }

    /** An id that is not registered makes the source dereference null. */
    method UpdateTextFile(id: string, text: string)
      requires id in files
      modifies this
      ensures files == UpdateText(old(files), id, text)
    {
      var textFile := files[id];
      var toUpdateTextFile := TextFile(textFile.uuid, textFile.name, textFile.filePath, text, textFile.saved);
      files := ReplaceIf(files, id, Some(textFile), toUpdateTextFile);
    }

    method UpdateSavedTextFile(id: string, filePath: string, text: string)
      requires id in files
      modifies this
      ensures files == UpdateSaved(old(files), id, filePath, text)
    {
      var textFile := files[id];
      var toUpdateTextFile := TextFile(textFile.uuid, textFile.name, filePath, text, true);
      files := ReplaceIf(files, id, Some(textFile), toUpdateTextFile);
    }
  }

  /** `controllers/ModelController`: files held only in memory. */
  class TemporaryFiles {
    var files: map<string, TextFile>

    constructor ()
      ensures files == map[]
    {
      files := map[];
    }

    method AddTextFile(textFile: TextFile)
      modifies this
      ensures files == ComputeIfAbsent(old(files), textFile.uuid, (key: string) => textFile)
    {
      files := ComputeIfAbsent(files, textFile.uuid, (key: string) => textFile);
    }

    method RequestTextFile(id: string) returns (textFile: Option<TextFile>)
      ensures textFile.Some? <==> id in files
      ensures textFile.Some? ==> textFile.value == files[id]
    {
      textFile := Get(files, id);
    }

    method UpdateTextFile(id: string, text: string)
      requires id in files
      modifies this
      ensures files == UpdateText(old(files), id, text)
    {
      var textFile := files[id];
      var newTextFile := TextFile(textFile.uuid, textFile.name, textFile.filePath, text, textFile.saved);
      files := ReplaceIf(files, id, Some(textFile), newTextFile);
    }

    method UpdateSavedTextFile(id: string, filePath: string, text: string)
      requires id in files
      modifies this
      ensures files == UpdateSaved(old(files), id, filePath, text)
    {
      var textFile := files[id];
      var newTextFile := TextFile(textFile.uuid, textFile.name, filePath, text, true);
      files := ReplaceIf(files, id, Some(textFile), newTextFile);
    }
  }

  /** `controller/ModelController` of the older source tree: adding overwrites. */
  class LegacyTemporaryFiles {
    var files: map<string, TextFile>

    constructor ()
      ensures files == map[]
    {
      files := map[];
    }

    method AddTextFile(textFile: TextFile)
      modifies this
      ensures files == Put(old(files), textFile.uuid, textFile)
    {
      files := Put(files, textFile.uuid, textFile);
    }

    method RequestTextFile(id: string) returns (textFile: Option<TextFile>)
      ensures textFile.Some? <==> id in files
      ensures textFile.Some? ==> textFile.value == files[id]
    {
      textFile := Get(files, id);
    }

    method UpdateTextFile(id: string, text: string)
      requires id in files
      modifies this
      ensures files == UpdateText(old(files), id, text)
    {
      var textFile := files[id];
      var newTextFile := TextFile(textFile.uuid, textFile.name, textFile.filePath, text, textFile.saved);
      files := ReplaceIf(files, id, Some(textFile), newTextFile);
    }

    method UpdateSavedTextFile(id: string, filePath: string, text: string)
      requires id in files
      modifies this
      ensures files == UpdateSaved(old(files), id, filePath, text)
    {
      var textFile := files[id];
      var newTextFile := TextFile(textFile.uuid, textFile.name, filePath, text, true);
      files := ReplaceIf(files, id, Some(textFile), newTextFile);
    }
  }

  // ---------------------------------------------------------------------
  // The text history

  /** `updateHistoricContent`: the replace is conditioned on the current value, which `get` just read. */
  function UpdateHistoric(m: map<string, string>, id: string, newContent: string): (r: map<string, string>)
    ensures id in m ==> id in r && r[id] == newContent && r.Keys == m.Keys
    ensures id !in m ==> r == m
    ensures SameElsewhere(m, r, id)
  {
    ReplaceIf(m, id, Get(m, id), newContent)
  }

  /** Removal deletes one id only, and removing twice is removing once. */
  lemma RemoveHistoricIdempotent(m: map<string, string>, id: string)
    ensures Remove(Remove(m, id), id) == Remove(m, id)
    ensures id !in Remove(m, id) && SameElsewhere(m, Remove(m, id), id)
  {
  }

  /** Inserting never overwrites existing history; it fills in only an absent id. */
  lemma InsertHistoricKeepsExisting(m: map<string, string>, id: string, content: string)
    ensures id in m ==> PutIfAbsent(m, id, content) == m
    ensures id !in m ==> PutIfAbsent(m, id, content)[id] == content
    ensures SameElsewhere(m, PutIfAbsent(m, id, content), id)
  {
  }

  /** `HistoricalController`. */
  class HistoricalRegistry {
    var historicalMap: map<string, string>

    constructor ()
      ensures historicalMap == map[]
    {
      historicalMap := map[];
    }

    method UpdateHistoricContent(id: string, newContent: string)
      modifies this
      ensures historicalMap == UpdateHistoric(old(historicalMap), id, newContent)
    {
      var oldContent := GetHistoric(id);
      historicalMap := ReplaceIf(historicalMap, id, oldContent, newContent);
    }

    method InsertHistoric(id: string, content: string)
      modifies this
      ensures historicalMap == PutIfAbsent(old(historicalMap), id, content)
    {
      historicalMap := PutIfAbsent(historicalMap, id, content);
    }

    method RemoveHistoric(id: string)
      modifies this
      ensures historicalMap == Remove(old(historicalMap), id)
    {
      historicalMap := Remove(historicalMap, id);
    }

    method GetHistoric(id: string) returns (content: Option<string>)
      ensures content.Some? <==> id in historicalMap
      ensures content.Some? ==> content.value == historicalMap[id]
    {
      content := Get(historicalMap, id);
    }
  }
}
