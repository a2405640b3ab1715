/**
 * The label-map loops of label_utils.cpp: build from a directory listing,
 * write to a file and read back. A file system is a map from paths to file
 * contents; whether an output file can be opened is a parameter.
 */
module LabelUtils {
  import opened LabelMaps

  /** The text content of every readable file, by path. */
  type Files = map<string, string>

  /** One more listing entry adds its name when it is a directory. */
  lemma ClassNamesStep(entries: seq<DirEntry>, i: int)
    requires 0 <= i < |entries|
    ensures ClassNames(entries[..i + 1]) ==
            ClassNames(entries[..i]) + (if entries[i].isDirectory then [entries[i].name] else [])
  {
    assert entries[..i + 1][..i] == entries[..i];
  }

  /** Giving the next id to a name extends both maps by one entry. */
  lemma BuildStep(names: seq<string>, n: string, inverseMap: map<int, string>)
    ensures NameIds(names + [n]) == NameIds(names)[n := |names|]
    ensures inverseMap + NameInverse(names + [n]) == (inverseMap + NameInverse(names))[|names| := n]
  {
    assert (names + [n])[..|names|] == names;
    NameInverseSnoc(names, n);
    MergeUpdate(inverseMap, NameInverse(names), |names|, n);
  }

  lemma MergeUpdate(a: map<int, string>, b: map<int, string>, k: int, v: string)
    ensures a + b[k := v] == (a + b)[k := v]
  {
    var l, r := a + b[k := v], (a + b)[k := v];
    assert l.Keys == r.Keys;
    assert forall x :: x in l ==> l[x] == r[x];
  }

  /**
   * buildLabelMap: one id per sub-directory, counting from 0 in listing
   * order. The caller's inverse map is not cleared: the new ids overwrite
   * their entries and any other entry stays.
   */
  method BuildLabelMap(entries: seq<DirEntry>, inverseMap: map<int, string>)
    returns (labelMap: map<string, int>, inverseOut: map<int, string>)
    ensures labelMap == NameIds(ClassNames(entries))
    ensures inverseOut == inverseMap + NameInverse(ClassNames(entries))
  {
    labelMap, inverseOut := map[], inverseMap;
    var labelId := 0;
    for i := 0 to |entries|
      invariant labelId == |ClassNames(entries[..i])|
      invariant labelMap == NameIds(ClassNames(entries[..i]))
      invariant inverseOut == inverseMap + NameInverse(ClassNames(entries[..i]))
    {
      ghost var names := ClassNames(entries[..i]);
      ClassNamesStep(entries, i);
      if !entries[i].isDirectory {
        assert ClassNames(entries[..i + 1]) == names + [] == names;
        continue;
      }
      var name := entries[i].name;
      BuildStep(names, name, inverseMap);
      assert ClassNames(entries[..i + 1]) == names + [name];
      labelMap := labelMap[name := labelId];
      inverseOut := inverseOut[labelId := name];
      labelId := labelId + 1;
    }
    assert entries[..|entries|] == entries;
  }

  /** Writing one more key appends its line. */
  lemma {:induction false} SerializeSnoc(ks: seq<string>, k: string, m: map<string, int>)
    requires (forall i :: 0 <= i < |ks| ==> ks[i] in m) && k in m
    ensures SerializeKeys(ks + [k], m) == SerializeKeys(ks, m) + Line(k, m[k])
  {
    if ks != [] {
      assert (ks + [k])[1..] == ks[1..] + [k];
      SerializeSnoc(ks[1..], k, m);
    }
  }

  /** Every key SortedKeys lists is a key of the map. */
  lemma SortedKeysIn(m: map<string, int>)
    ensures forall i :: 0 <= i < |SortedKeys(m.Keys)| ==> SortedKeys(m.Keys)[i] in m
  {
    var keys := SortedKeys(m.Keys);
    forall i | 0 <= i < |keys| ensures keys[i] in m {
      assert keys[i] in keys;
    }
  }

  /** The text for one more key of the list is the text so far plus that key's line. */
  lemma SerializeGrow(keys: seq<string>, i: int, m: map<string, int>)
    requires 0 <= i < |keys| && forall j :: 0 <= j < |keys| ==> keys[j] in m
    ensures SerializeKeys(keys[..i + 1], m) == SerializeKeys(keys[..i], m) + Line(keys[i], m[keys[i]])
  {
    assert keys[..i + 1] == keys[..i] + [keys[i]];
    SerializeSnoc(keys[..i], keys[i], m);
  }

  /** The write loop: one line per entry, in the map's ascending key order. */
  method WriteEntries(labelMap: map<string, int>) returns (text: string)
    ensures text == Serialize(labelMap)
  {
    var keys := SortedKeys(labelMap.Keys);
    SortedKeysIn(labelMap);
    text := "";
    for i := 0 to |keys|
      invariant text == SerializeKeys(keys[..i], labelMap)
    {
      SerializeGrow(keys, i, labelMap);
      text := text + Line(keys[i], labelMap[keys[i]]);
    }
    assert keys[..|keys|] == keys;
  }

  /**
   * saveLabelMap: open filePath for writing (replacing its content) and write
   * the entries. When the stream cannot be opened nothing is written.
   */
  method SaveLabelMap(labelMap: map<string, int>, filePath: string, files: Files, canOpen: bool)
    returns (files': Files)
    ensures canOpen ==> files' == files[filePath := Serialize(labelMap)]
    ensures !canOpen ==> files' == files
  {
    files' := files;
    if canOpen {
      var text := WriteEntries(labelMap);
      files' := files'[filePath := text];
    }
  }

  /**
   * The read loop `while (ifs >> key >> value)`: each pair read sets
   * labelMap[key] and inverseMap[value]; the loop ends at the first failed
   * extraction.
   */
  method ReadEntries(text: string, inverseMap: map<int, string>)
    returns (labelMap: map<string, int>, inverseOut: map<int, string>)
    ensures labelMap == Insert(map[], ParsePairs(text))
    ensures inverseOut == Insert(inverseMap, Swapped(ParsePairs(text)))
  {
    labelMap, inverseOut := map[], inverseMap;
    var rest := text;
    while true
      invariant Insert(labelMap, ParsePairs(rest)) == Insert(map[], ParsePairs(text))
      invariant Insert(inverseOut, Swapped(ParsePairs(rest))) == Insert(inverseMap, Swapped(ParsePairs(text)))
      decreases |rest|
    {
      var next := NextPair(rest);
      if next.None? {
        ParseStop(rest);
        break;
      }
      var key, value, rest' := next.value.0, next.value.1, next.value.2;
      ParseStep(rest, key, value, rest');
      InsertCons(labelMap, (key, value), ParsePairs(rest'));
      SwappedCons((key, value), ParsePairs(rest'));
      InsertCons(inverseOut, (value, key), Swapped(ParsePairs(rest')));
      labelMap := labelMap[key := value];
      inverseOut := inverseOut[value := key];
      rest := rest';
    }
  }

  /**
   * loadLabelMap: a missing file reads as empty. The label map starts empty;
   * the caller's inverse map accumulates.
   */
  method LoadLabelMap(filePath: string, files: Files, inverseMap: map<int, string>)
    returns (labelMap: map<string, int>, inverseOut: map<int, string>)
    ensures filePath !in files ==> labelMap == map[] && inverseOut == inverseMap
    ensures filePath in files ==>
              labelMap == Insert(map[], ParsePairs(files[filePath])) &&
              inverseOut == Insert(inverseMap, Swapped(ParsePairs(files[filePath])))
  {
    if filePath !in files {
      return map[], inverseMap;
    }
    labelMap, inverseOut := ReadEntries(files[filePath], inverseMap);
  }
}
