/**
 * The label map shared by label_utils.cpp and the PcaSvmClassifier: class
 * names taken from a directory listing get consecutive ids, the map is
 * written as "key value\n" lines in ascending key order and read back with
 * the token rules of std::istream.
 */
module LabelMaps {
  import opened Wrappers

  // ---------------------------------------------------------------------------
  // Id assignment

  /** One entry of a directory_iterator listing: its file name and whether it is a directory. */
  datatype DirEntry = DirEntry(name: string, isDirectory: bool)

  /** The names of the sub-directories, in listing order. */
  function ClassNames(entries: seq<DirEntry>): (names: seq<string>)
    ensures |names| <= |entries|
    ensures forall n :: n in names <==> exists i :: 0 <= i < |entries| && entries[i].isDirectory && entries[i].name == n
  {
    if entries == [] then []
    else
      var init := entries[..|entries| - 1];
      var last := entries[|entries| - 1];
      assert forall i :: 0 <= i < |init| ==> init[i] == entries[i];
      if last.isDirectory then ClassNames(init) + [last.name] else ClassNames(init)
  }

  /** The ids the build loop gives: the i-th directory gets id i; a repeated name keeps its last id. */
  function NameIds(names: seq<string>): map<string, int>
  {
    if names == [] then map[] else NameIds(names[..|names| - 1])[names[|names| - 1] := |names| - 1]
  }

  /** The inverse map the build loop fills: id i names the i-th directory. */
  function NameInverse(names: seq<string>): map<int, string>
  {
    map i | 0 <= i < |names| :: names[i]
  }

  predicate Distinct(names: seq<string>)
  {
    forall i, j :: 0 <= i < j < |names| ==> names[i] != names[j]
  }

  predicate DistinctEntries(entries: seq<DirEntry>)
  {
    forall i, j :: 0 <= i < j < |entries| ==> entries[i].name != entries[j].name
  }

  lemma NameInverseSnoc(names: seq<string>, n: string)
    ensures NameInverse(names + [n]) == NameInverse(names)[|names| := n]
  {
  }

  /**
   * The keys of NameIds are exactly the names, every id is in 0 .. |names| - 1,
   * and id k of name n is n's last position.
   */
  lemma {:induction false} NameIdsFacts(names: seq<string>)
    ensures NameIds(names).Keys == set n | n in names
    ensures forall n :: n in NameIds(names) ==>
              0 <= NameIds(names)[n] < |names| && names[NameIds(names)[n]] == n &&
              forall j :: NameIds(names)[n] < j < |names| ==> names[j] != n
  {
    if names != [] {
      var init := names[..|names| - 1];
      NameIdsFacts(init);
      assert names == init + [names[|names| - 1]];
    }
  }

  /** A listing has unique file names, so the class names it yields are unique as well. */
  lemma {:induction false} ClassNamesDistinct(entries: seq<DirEntry>)
    requires DistinctEntries(entries)
    ensures Distinct(ClassNames(entries))
  {
    if entries != [] {
      var init := entries[..|entries| - 1];
      var last := entries[|entries| - 1];
      assert DistinctEntries(init) by {
        assert forall i :: 0 <= i < |init| ==> init[i] == entries[i];
      }
      ClassNamesDistinct(init);
      if last.isDirectory {
        var names := ClassNames(init);
        forall i | 0 <= i < |names| ensures names[i] != last.name {
          assert names[i] in names;
          var k :| 0 <= k < |init| && init[k].isDirectory && init[k].name == names[i];
          assert init[k] == entries[k];
        }
      }
    }
  }

  /**
   * With unique names the two maps built together are mutual inverses, the
   * ids are exactly 0 .. n - 1 and the names are exactly the keys.
   */
  lemma MutualInverse(names: seq<string>)
    requires Distinct(names)
    ensures forall i :: i in NameInverse(names) <==> 0 <= i < |names|
    ensures NameIds(names).Keys == set n | n in names
    ensures forall n :: n in NameIds(names) ==>
              NameIds(names)[n] in NameInverse(names) && NameInverse(names)[NameIds(names)[n]] == n
    ensures forall i :: i in NameInverse(names) ==>
              NameInverse(names)[i] in NameIds(names) && NameIds(names)[NameInverse(names)[i]] == i
  {
    NameIdsFacts(names);
    forall i | i in NameInverse(names)
      ensures NameInverse(names)[i] in NameIds(names) && NameIds(names)[NameInverse(names)[i]] == i
    {
      var n := names[i];
      assert n in names;
      var k := NameIds(names)[n];
      var nk := names[k];
      assert k != i ==> nk == n;
    }
  }

  // ---------------------------------------------------------------------------
  // Lookups

  /** labelToId: the id of a label, -1 when the label is absent. */
  function LookupId(labelMap: map<string, int>, key: string): (id: int)
    ensures key in labelMap ==> id == labelMap[key]
    ensures key !in labelMap ==> id == -1
  {
    if key in labelMap then labelMap[key] else -1
  }

  /** idToLabel: the label of an id, "" when the id is absent. */
  function LookupName(inverseMap: map<int, string>, id: int): (name: string)
    ensures id in inverseMap ==> name == inverseMap[id]
    ensures id !in inverseMap ==> name == ""
  {
    if id in inverseMap then inverseMap[id] else ""
  }

  /**
   * After a build the sentinels are unambiguous: -1 is returned exactly for
   * names that are not classes, "" exactly for ids outside 0 .. n - 1 (class
   * directories have non-empty names), and the two lookups undo each other.
   */
  lemma LookupAfterBuild(names: seq<string>)
    requires Distinct(names)
    requires forall i :: 0 <= i < |names| ==> names[i] != ""
    ensures forall key :: LookupId(NameIds(names), key) == -1 <==> key !in names
    ensures forall id :: LookupName(NameInverse(names), id) == "" <==> !(0 <= id < |names|)
    ensures forall key :: key in names ==> LookupName(NameInverse(names), LookupId(NameIds(names), key)) == key
    ensures forall id :: 0 <= id < |names| ==> LookupId(NameIds(names), LookupName(NameInverse(names), id)) == id
  {
    MutualInverse(names);
    NameIdsFacts(names);
  }

  // ---------------------------------------------------------------------------
  // std::map key order

  /** std::string's operator<: lexicographic order on character codes. */
  predicate LexLess(a: string, b: string)
  {
    if a == [] then b != []
    else if b == [] then false
    else if a[0] != b[0] then a[0] < b[0]
    else LexLess(a[1..], b[1..])
  }

  lemma {:induction false} LexIrreflexive(a: string)
    ensures !LexLess(a, a)
  {
    if a != [] {
      LexIrreflexive(a[1..]);
    }
  }

  lemma {:induction false} LexTransitive(a: string, b: string, c: string)
    requires LexLess(a, b) && LexLess(b, c)
    ensures LexLess(a, c)
  {
    if a != [] && b != [] && c != [] && a[0] == b[0] && b[0] == c[0] {
      LexTransitive(a[1..], b[1..], c[1..]);
    }
  }

  lemma {:induction false} LexTotal(a: string, b: string)
    requires a != b
    ensures LexLess(a, b) || LexLess(b, a)
  {
    if a != [] && b != [] && a[0] == b[0] {
      assert a == [a[0]] + a[1..] && b == [b[0]] + b[1..];
      LexTotal(a[1..], b[1..]);
    }
  }

  predicate IsLeast(k: string, s: set<string>)
  {
    k in s && forall j :: j in s ==> !LexLess(j, k)
  }

  lemma {:induction false} LeastExists(s: set<string>)
    requires s != {}
    ensures exists k :: IsLeast(k, s)
    decreases |s|
  {
    var x :| x in s;
    var rest := s - {x};
    if rest == {} {
      assert s == {x};
      LexIrreflexive(x);
      assert IsLeast(x, s);
    } else {
      LeastExists(rest);
      var y :| IsLeast(y, rest);
      if LexLess(x, y) {
        LexIrreflexive(x);
        forall j | j in s ensures !LexLess(j, x) {
          if j != x && LexLess(j, x) {
            LexTransitive(j, x, y);
          }
        }
        assert IsLeast(x, s);
      } else {
        assert IsLeast(y, s);
      }
    }
  }

  lemma LeastUnique(s: set<string>)
    ensures forall a, b :: IsLeast(a, s) && IsLeast(b, s) ==> a == b
  {
    forall a, b | IsLeast(a, s) && IsLeast(b, s) ensures a == b {
      if a != b {
        LexTotal(a, b);
      }
    }
  }

  /** The smallest key of a non-empty set. */
  function Least(s: set<string>): (k: string)
    requires s != {}
    ensures IsLeast(k, s)
  {
    LeastExists(s);
    LeastUnique(s);
    var k :| IsLeast(k, s);
    k
  }

  /** The keys of a std::map in iteration order: ascending, each once. */
  function SortedKeys(s: set<string>): (ks: seq<string>)
    ensures |ks| == |s|
    ensures forall k :: k in ks <==> k in s
    ensures forall i, j :: 0 <= i < j < |ks| ==> LexLess(ks[i], ks[j])
    decreases |s|
  {
    if s == {} then []
    else
      var k := Least(s);
      var rest := SortedKeys(s - {k});
      forall j | j in rest ensures LexLess(k, j) {
        LexTotal(k, j);
      }
      [k] + rest
  }

  // ---------------------------------------------------------------------------
  // Text format: writing

  const IntMin: int := -0x8000_0000
  const IntMax: int := 0x7fff_ffff

  predicate InInt(v: int)
  {
    IntMin <= v <= IntMax
  }

  predicate IsDigit(c: char)
  {
    '0' <= c <= '9'
  }

  function DigitChar(d: int): (c: char)
    requires 0 <= d < 10
    ensures IsDigit(c)
  {
    (48 + d) as char
  }

  /** The value of a string of decimal digits. */
  function DigitsValue(ds: string): nat
    requires forall i :: 0 <= i < |ds| ==> IsDigit(ds[i])
  {
    if ds == [] then 0
    else
      assert IsDigit(ds[|ds| - 1]);
      DigitsValue(ds[..|ds| - 1]) * 10 + (ds[|ds| - 1] as int - 48)
  }

  /** operator<< of a non-negative int: its decimal digits, without leading zeros. */
  function NatToString(n: nat): (s: string)
    ensures |s| > 0 && forall i :: 0 <= i < |s| ==> IsDigit(s[i])
    ensures DigitsValue(s) == n
  {
    if n < 10 then [DigitChar(n)]
    else
      var s := NatToString(n / 10) + [DigitChar(n % 10)];
      assert s[..|s| - 1] == NatToString(n / 10);
      s
  }

  /** operator<< of an int: a minus sign for negative values, then the digits. */
  function IntToString(v: int): string
  {
    if v < 0 then "-" + NatToString(-v) else NatToString(v)
  }

  /** One line of the label file. */
  function Line(k: string, v: int): string
  {
    k + " " + IntToString(v) + "\n"
  }

  /** The lines for the keys ks, in that order. */
  function SerializeKeys(ks: seq<string>, m: map<string, int>): string
    requires forall i :: 0 <= i < |ks| ==> ks[i] in m
  {
    if ks == [] then "" else Line(ks[0], m[ks[0]]) + SerializeKeys(ks[1..], m)
  }

  /** The file saveLabelMap writes: one "key value" line per entry, in ascending key order. */
  function Serialize(m: map<string, int>): string
  {
    SerializeKeys(SortedKeys(m.Keys), m)
  }

  // ---------------------------------------------------------------------------
  // Text format: reading with operator>>

  /** isspace in the "C" locale: space, \t, \n, \v, \f and \r. */
  predicate IsSpace(c: char)
  {
    c == ' ' || '\t' <= c <= '\r'
  }

  /** The whitespace that every extraction skips first. */
  function SkipWs(s: string): (r: string)
    ensures |r| <= |s|
  {
    if s != [] && IsSpace(s[0]) then SkipWs(s[1..]) else s
  }

  /** The length of the run of non-whitespace characters at the start of s. */
  function TokenLen(s: string): (n: nat)
    ensures n <= |s|
  {
    if s == [] || IsSpace(s[0]) then 0 else 1 + TokenLen(s[1..])
  }

  /** The length of the run of digits at the start of s. */
  function DigitLen(s: string): (n: nat)
    ensures n <= |s| && forall i :: 0 <= i < n ==> IsDigit(s[i])
  {
    if s == [] || !IsDigit(s[0]) then 0 else 1 + DigitLen(s[1..])
  }

  /**
   * operator>> into a std::string: skip whitespace, then take characters up
   * to the next whitespace or the end. Fails when nothing is left.
   */
  function ReadToken(s: string): (r: Option<(string, string)>)
    ensures r.Some? ==> |r.value.1| < |s|
  {
    var t := SkipWs(s);
    var n := TokenLen(t);
    if n == 0 then None else Some((t[..n], t[n..]))
  }

  /**
   * operator>> into an int: skip whitespace, read an optional sign and at
   * least one decimal digit. Fails without digits and when the value does not
   * fit in 32 bits.
   */
  function ReadInt(s: string): (r: Option<(int, string)>)
    ensures r.Some? ==> InInt(r.value.0) && |r.value.1| < |s|
  {
    var t := SkipWs(s);
    if |t| > 0 && t[0] == '-' then ReadMagnitude(t[1..], true)
    else if |t| > 0 && t[0] == '+' then ReadMagnitude(t[1..], false)
    else ReadMagnitude(t, false)
  }

  /** The digits after the optional sign, negated when the sign was a minus. */
  function ReadMagnitude(u: string, negative: bool): (r: Option<(int, string)>)
    ensures r.Some? ==> InInt(r.value.0) && |r.value.1| < |u|
  {
    var n := DigitLen(u);
    if n == 0 then None
    else
      var magnitude: int := DigitsValue(u[..n]);
      var v: int := if negative then 0 - magnitude else magnitude;
      if InInt(v) then Some((v, u[n..])) else None
  }

  /** One iteration's `ifs >> key >> value`; it fails when either extraction fails. */
  function NextPair(s: string): (r: Option<(string, int, string)>)
    ensures r.Some? ==> |r.value.2| < |s|
  {
    match ReadToken(s)
    case None => None
    case Some((k, rest)) =>
      match ReadInt(rest)
      case None => None
      case Some((v, rest')) => Some((k, v, rest'))
  }

  /** Every pair the read loop extracts before the first failed extraction, in order. */
  function ParsePairs(s: string): seq<(string, int)>
    decreases |s|
  {
    match NextPair(s)
    case None => []
    case Some((k, v, rest)) => [(k, v)] + ParsePairs(rest)
  }

  /** A successful extraction puts its pair in front of the rest. */
  lemma ParseStep(s: string, k: string, v: int, rest: string)
    requires NextPair(s) == Some((k, v, rest))
    ensures ParsePairs(s) == [(k, v)] + ParsePairs(rest)
  {
  }

  /** A failed extraction ends the loop. */
  lemma ParseStop(s: string)
    requires NextPair(s).None?
    ensures ParsePairs(s) == []
  {
  }

  /**
   * map[key] = value for each pair in turn. The read loop does this for
   * labelMap with the (key, value) pairs and for inverseMap with the swapped
   * pairs; a later duplicate overwrites an earlier one.
   */
  function Insert<K, V>(m: map<K, V>, pairs: seq<(K, V)>): map<K, V>
    decreases |pairs|
  {
    if pairs == [] then m else Insert(m[pairs[0].0 := pairs[0].1], pairs[1..])
  }

  /** The (value, key) pairs that fill inverseMap. */
  function Swapped(pairs: seq<(string, int)>): (sw: seq<(int, string)>)
    ensures |sw| == |pairs| && forall i :: 0 <= i < |pairs| ==> sw[i] == (pairs[i].1, pairs[i].0)
  {
    seq(|pairs|, i requires 0 <= i < |pairs| => (pairs[i].1, pairs[i].0))
  }

  /** Inserting a pair in front of others applies it first. */
  lemma InsertCons<K, V>(m: map<K, V>, p: (K, V), ps: seq<(K, V)>)
    ensures Insert(m, [p] + ps) == Insert(m[p.0 := p.1], ps)
  {
    assert ([p] + ps)[1..] == ps;
  }

  /** Swapping a pair in front of others swaps it in front. */
  lemma SwappedCons(p: (string, int), ps: seq<(string, int)>)
    ensures Swapped([p] + ps) == [(p.1, p.0)] + Swapped(ps)
  {
  }

  /** A key that no pair mentions keeps its old entry, or stays absent. */
  lemma {:induction false} InsertUntouched<K, V>(m: map<K, V>, pairs: seq<(K, V)>, k: K)
    requires forall j :: 0 <= j < |pairs| ==> pairs[j].0 != k
    ensures k in Insert(m, pairs) <==> k in m
    ensures k in m ==> Insert(m, pairs)[k] == m[k]
    decreases |pairs|
  {
    if pairs != [] {
      assert forall j :: 0 <= j < |pairs| - 1 ==> pairs[1..][j] == pairs[j + 1];
      InsertUntouched(m[pairs[0].0 := pairs[0].1], pairs[1..], k);
    }
  }

  /** After the inserts a key holds the value of its last pair: later duplicates win. */
  lemma {:induction false} InsertLastWins<K, V>(m: map<K, V>, pairs: seq<(K, V)>, k: K, j: int)
    requires 0 <= j < |pairs| && pairs[j].0 == k
    requires forall j' :: j < j' < |pairs| ==> pairs[j'].0 != k
    ensures k in Insert(m, pairs) && Insert(m, pairs)[k] == pairs[j].1
    decreases |pairs|
  {
    var m' := m[pairs[0].0 := pairs[0].1];
    assert forall i :: 0 <= i < |pairs| - 1 ==> pairs[1..][i] == pairs[i + 1];
    if j == 0 {
      InsertUntouched(m', pairs[1..], k);
    } else {
      InsertLastWins(m', pairs[1..], k, j - 1);
    }
  }

  // ---------------------------------------------------------------------------
  // Round trip

  /** A key the reader gets back intact: non-empty and free of whitespace. */
  predicate WellFormedKey(k: string)
  {
    |k| > 0 && forall i :: 0 <= i < |k| ==> !IsSpace(k[i])
  }

  lemma {:induction false} TokenLenPrefix(k: string, rest: string)
    requires forall i :: 0 <= i < |k| ==> !IsSpace(k[i])
    requires rest != [] && IsSpace(rest[0])
    ensures TokenLen(k + rest) == |k|
  {
    if k != [] {
      assert (k + rest)[1..] == k[1..] + rest;
      TokenLenPrefix(k[1..], rest);
    }
  }

  lemma {:induction false} DigitLenPrefix(ds: string, rest: string)
    requires forall i :: 0 <= i < |ds| ==> IsDigit(ds[i])
    requires rest != [] && !IsDigit(rest[0])
    ensures DigitLen(ds + rest) == |ds|
  {
    if ds != [] {
      assert (ds + rest)[1..] == ds[1..] + rest;
      DigitLenPrefix(ds[1..], rest);
    }
  }

  lemma SkipWsNonSpace(s: string)
    requires s != [] && !IsSpace(s[0])
    ensures SkipWs(s) == s
  {
  }

  lemma SkipWsSpace(c: char, s: string)
    requires IsSpace(c)
    ensures SkipWs([c] + s) == SkipWs(s)
  {
    assert ([c] + s)[1..] == s;
  }

  /** The digits of a written magnitude are read back up to the newline. */
  lemma DigitsWritten(n: nat, rest: string)
    ensures var u := NatToString(n) + "\n" + rest;
            DigitLen(u) == |NatToString(n)| &&
            u[..|NatToString(n)|] == NatToString(n) && u[|NatToString(n)|..] == "\n" + rest
  {
    var digits := NatToString(n);
    var u := digits + "\n" + rest;
    assert u == digits + ("\n" + rest);
    DigitLenPrefix(digits, "\n" + rest);
  }

  /** The digits of a written magnitude are read back, with the sign applied. */
  lemma ReadMagnitudeWritten(n: nat, negative: bool, rest: string)
    requires InInt(if negative then -(n as int) else n as int)
    ensures ReadMagnitude(NatToString(n) + "\n" + rest, negative) == Some((if negative then -(n as int) else n as int, "\n" + rest))
  {
    DigitsWritten(n, rest);
  }

  /** Reading back a written value gives the value, up to the line's newline. */
  lemma ReadIntWritten(v: int, rest: string)
    requires InInt(v)
    ensures ReadInt(IntToString(v) + "\n" + rest) == Some((v, "\n" + rest))
  {
    var s := IntToString(v) + "\n" + rest;
    var digits := NatToString(if v < 0 then -v else v);
    SkipWsNonSpace(s);
    if v < 0 {
      assert s == "-" + (digits + "\n" + rest);
      assert s[1..] == digits + "\n" + rest;
      ReadMagnitudeWritten(-v, true, rest);
    } else {
      assert s == digits + "\n" + rest;
      assert s[0] == digits[0];
      ReadMagnitudeWritten(v, false, rest);
    }
  }

  /** Reading a token from a well-formed key followed by whitespace gives the key. */
  lemma ReadTokenKey(k: string, tail: string)
    requires WellFormedKey(k) && tail != [] && IsSpace(tail[0])
    ensures ReadToken(k + tail) == Some((k, tail))
  {
    var s := k + tail;
    assert s[0] == k[0];
    SkipWsNonSpace(s);
    TokenLenPrefix(k, tail);
    assert s[..|k|] == k && s[|k|..] == tail;
  }

  lemma ReadIntAfterSpace(number: string)
    ensures ReadInt(" " + number) == ReadInt(number)
  {
    SkipWsSpace(' ', number);
  }

  lemma NextPairSplit(s: string, k: string, tail: string, v: int, rest: string)
    requires ReadToken(s) == Some((k, tail)) && ReadInt(tail) == Some((v, rest))
    ensures NextPair(s) == Some((k, v, rest))
  {
  }

  /** A line is its key, then a space, then the rest of the line. */
  lemma LineSplit(k: string, v: int, rest: string)
    ensures Line(k, v) + rest == k + (" " + (IntToString(v) + "\n" + rest))
  {
  }

  /** A written line is read back as its pair. */
  lemma NextPairLine(k: string, v: int, rest: string)
    requires WellFormedKey(k) && InInt(v)
    ensures NextPair(Line(k, v) + rest) == Some((k, v, "\n" + rest))
  {
    var number := IntToString(v) + "\n" + rest;
    var tail := " " + number;
    LineSplit(k, v, rest);
    ReadTokenKey(k, tail);
    ReadIntAfterSpace(number);
    ReadIntWritten(v, rest);
    NextPairSplit(k + tail, k, tail, v, "\n" + rest);
  }

  /** A newline before the next pair changes nothing. */
  lemma ParseAfterNewline(rest: string)
    ensures ParsePairs("\n" + rest) == ParsePairs(rest)
  {
    SkipWsSpace('\n', rest);
    assert ReadToken("\n" + rest) == ReadToken(rest);
    assert NextPair("\n" + rest) == NextPair(rest);
  }

  /** Reading a written line yields its pair, then whatever follows. */
  lemma ParseLine(k: string, v: int, rest: string)
    requires WellFormedKey(k) && InInt(v)
    ensures ParsePairs(Line(k, v) + rest) == [(k, v)] + ParsePairs(rest)
  {
    NextPairLine(k, v, rest);
    ParseAfterNewline(rest);
  }

  /** The (key, value) pairs for the keys ks. */
  function Pairs(ks: seq<string>, m: map<string, int>): (ps: seq<(string, int)>)
    requires forall i :: 0 <= i < |ks| ==> ks[i] in m
    ensures |ps| == |ks| && forall i :: 0 <= i < |ks| ==> ps[i] == (ks[i], m[ks[i]])
  {
    seq(|ks|, i requires 0 <= i < |ks| => (ks[i], m[ks[i]]))
  }

  /** Reading the lines written for ks yields exactly their pairs. */
  lemma {:induction false} ParseSerializedKeys(ks: seq<string>, m: map<string, int>)
    requires forall i :: 0 <= i < |ks| ==> ks[i] in m && WellFormedKey(ks[i]) && InInt(m[ks[i]])
    ensures ParsePairs(SerializeKeys(ks, m)) == Pairs(ks, m)
  {
    if ks == [] {
      assert ReadToken("") == None;
    } else {
      var rest := SerializeKeys(ks[1..], m);
      ParseLine(ks[0], m[ks[0]], rest);
      ParseSerializedKeys(ks[1..], m);
      assert Pairs(ks, m) == [(ks[0], m[ks[0]])] + Pairs(ks[1..], m);
    }
  }

  /** Inserting the pairs for ks adds m's entries for ks and nothing else. */
  lemma {:induction false} InsertPairs(acc: map<string, int>, ks: seq<string>, m: map<string, int>)
    requires forall i :: 0 <= i < |ks| ==> ks[i] in m
    ensures Insert(acc, Pairs(ks, m)) == acc + map k | k in ks :: m[k]
    decreases |ks|
  {
    if ks != [] {
      var acc' := acc[ks[0] := m[ks[0]]];
      assert Pairs(ks, m)[1..] == Pairs(ks[1..], m);
      InsertPairs(acc', ks[1..], m);
      var later := map k | k in ks[1..] :: m[k];
      RestrictCons(ks, m);
      UpdateUnder(acc, later, ks[0], m[ks[0]]);
    }
  }

  /** The restriction of m to ks is its restriction to ks[1..] with ks[0] added. */
  lemma RestrictCons(ks: seq<string>, m: map<string, int>)
    requires ks != [] && forall i :: 0 <= i < |ks| ==> ks[i] in m
    ensures (map k | k in ks :: m[k]) == (map k | k in ks[1..] :: m[k])[ks[0] := m[ks[0]]]
  {
    assert forall k :: k in ks <==> k == ks[0] || k in ks[1..] by {
      assert ks == [ks[0]] + ks[1..];
    }
  }

  /** An earlier update of k is overridden by a merge that agrees with it on k. */
  lemma UpdateUnder(acc: map<string, int>, later: map<string, int>, k: string, v: int)
    requires k in later ==> later[k] == v
    ensures acc[k := v] + later == acc + later[k := v]
  {
    var l, r := acc[k := v] + later, acc + later[k := v];
    assert l.Keys == r.Keys;
    assert forall x :: x in l ==> l[x] == r[x];
  }

  /** Reading back the lines for a key list that covers m gives m. */
  lemma RoundTripKeys(m: map<string, int>, ks: seq<string>)
    requires forall k :: k in ks <==> k in m
    requires forall k :: k in m ==> WellFormedKey(k) && InInt(m[k])
    ensures Insert(map[], ParsePairs(SerializeKeys(ks, m))) == m
  {
    assert forall i :: 0 <= i < |ks| ==> ks[i] in m by {
      forall i | 0 <= i < |ks| ensures ks[i] in m {
        assert ks[i] in ks;
      }
    }
    ParseSerializedKeys(ks, m);
    InsertPairs(map[], ks, m);
    RestrictAll(m, ks);
  }

  /** Restricting m to a key list that covers it gives m back. */
  lemma RestrictAll(m: map<string, int>, ks: seq<string>)
    requires forall k :: k in ks <==> k in m
    ensures map[] + (map k | k in ks :: m[k]) == m
  {
    var r := map k | k in ks :: m[k];
    assert r.Keys == m.Keys;
    assert map[] + r == r;
  }

  /**
   * Saving a label map and reading the text back reproduces it, as long as
   * every key is non-empty and whitespace-free and every value fits in an int.
   */
  lemma SaveLoadRoundTrip(m: map<string, int>)
    requires forall k :: k in m ==> WellFormedKey(k) && InInt(m[k])
    ensures Insert(map[], ParsePairs(Serialize(m))) == m
  {
    RoundTripKeys(m, SortedKeys(m.Keys));
  }

  lemma SerializeSingle(k: string, v: int)
    ensures Serialize(map[k := v]) == Line(k, v)
  {
    var m := map[k := v];
    assert m.Keys == {k};
    var ks := SortedKeys(m.Keys);
    assert ks[0] in m.Keys;
    assert ks == [k];
    assert ks[1..] == [];
    assert SerializeKeys(ks, m) == Line(k, v) + "";
  }

  /** A key containing a space is split: the reader gets a different map back. */
  lemma SpaceInKeyBreaksRoundTrip()
    ensures Insert(map[], ParsePairs(Serialize(map["a b" := 1]))) != map["a b" := 1]
  {
    SerializeSingle("a b", 1);
    assert IntToString(1) == "1";
    var text := Serialize(map["a b" := 1]);
    assert text == "a" + " b 1\n";
    ReadTokenKey("a", " b 1\n");
    assert ReadInt(" b 1\n") == None by {
      assert SkipWs(" b 1\n") == "b 1\n";
      assert DigitLen("b 1\n") == 0;
    }
    assert ParsePairs(text) == [];
  }
}
