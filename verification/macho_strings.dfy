/** MachOSymbolTable::StringTable (runtime/vm/mach_o.cc:1103-1141): the
    string table of a symbol table, a run of NUL-terminated names in which
    each distinct name is stored once and is referred to by its offset. */
module MachOStrings {
  import opened Wrappers
  import opened CStrings

  /** The table's text and the offset of each name added so far. */
  datatype StringTable = StringTable(text: string, offsets: map<CString, nat>)

  /** `s` sits at offset `o` of `text`, followed by a NUL. */
  predicate NameAt(text: string, o: nat, s: CString) {
    o + |s| < |text| && text[o..o + |s|] == s && text[o + |s|] == '\0'
  }

  /** Every recorded name sits at its offset, followed by a NUL. */
  predicate Valid(t: StringTable) {
    forall s :: s in t.offsets ==> NameAt(t.text, t.offsets[s], s)
  }

  /** StringTable::At: the name starting at `index`, or None past the end. */
  function At(t: StringTable, index: nat): (r: Option<CString>)
    ensures r.Some? <==> index < |t.text|
    ensures r.Some? ==> index + |r.value| <= |t.text| && t.text[index..index + |r.value|] == r.value &&
                        (index + |r.value| == |t.text| || t.text[index + |r.value|] == '\0')
  {
    if index >= |t.text| then None else Some(ReadCString(t.text[index..]))
  }

  /** A name recorded at an offset reads back from it. */
  lemma AtNameAt(t: StringTable, o: nat, s: CString)
    requires NameAt(t.text, o, s)
    ensures At(t, o) == Some(s)
  {
    assert t.text[o..] == s + t.text[o + |s|..];
    ReadCStringOfTerminated(s, t.text[o + |s|..]);
  }

  /** A recorded name reads back from its offset. */
  lemma AtRecorded(t: StringTable, s: CString)
    requires Valid(t) && s in t.offsets
    ensures At(t, t.offsets[s]) == Some(s)
  {
    AtNameAt(t, t.offsets[s], s);
  }

  /** StringTable::Add: a known name returns its existing offset and leaves
      the table alone; a new one is appended with its NUL and gets the old
      length of the text as its offset. */
  function Add(t: StringTable, str: CString): (r: (StringTable, nat))
    requires Valid(t)
    ensures Valid(r.0)
    ensures str in t.offsets ==> r == (t, t.offsets[str])
    ensures str !in t.offsets ==> r.1 == |t.text| && r.0.text == t.text + str + ['\0']
    ensures r.0.offsets == t.offsets[str := r.1]
    ensures At(r.0, r.1) == Some(str)
  {
    if str in t.offsets then
      AtRecorded(t, str);
      (t, t.offsets[str])
    else
      var offset := |t.text|;
      var u := StringTable(t.text + str + ['\0'], t.offsets[str := offset]);
      AppendKeepsValid(t, str, u);
      AtRecorded(u, str);
      (u, offset)
  }

  lemma AppendKeepsValid(t: StringTable, str: CString, u: StringTable)
    requires Valid(t) && str !in t.offsets
    requires u == StringTable(t.text + str + ['\0'], t.offsets[str := |t.text|])
    ensures Valid(u)
  {
    forall s | s in u.offsets
      ensures NameAt(u.text, u.offsets[s], s)
    {
      if s != str {
        OldNameKept(t.text, t.offsets[s], s, str + ['\0']);
      } else {
        NewNameAppended(t.text, str);
      }
    }
  }

  lemma NewNameAppended(text: string, str: CString)
    ensures NameAt(text + str + ['\0'], |text|, str)
  {
    var u := text + str + ['\0'];
    assert u[|text|..|text| + |str|] == str;
  }

  /** Appending to the text keeps a recorded name where it was. */
  lemma OldNameKept(text: string, o: nat, s: CString, more: string)
    requires NameAt(text, o, s)
    ensures NameAt(text + more, o, s)
  {
    var u := text + more;
    assert u[o..o + |s|] == text[o..o + |s|];
  }

  /** Adding a name twice changes nothing the second time. */
  lemma AddIdempotent(t: StringTable, str: CString)
    requires Valid(t)
    ensures Add(Add(t, str).0, str) == Add(t, str)
  {
  }

  /** The name of one space, which the constructor puts at offset 0. */
  const Space: CString := [' ']
  /** The empty name. */
  const NoName: CString := []

  /** The constructor: " " is added first, at offset 0, and the empty name
      is given offset 1, the NUL that ends the " ". */
  function Empty(): (r: StringTable)
    ensures Valid(r) && |r.text| == 2
    ensures r.offsets.Keys == {Space, NoName} && r.offsets[Space] == 0 && r.offsets[NoName] == 1
    ensures At(r, 0) == Some(Space) && At(r, 1) == Some(NoName)
  {
    var t := StringTable([], map[]);
    assert Space !in t.offsets;
    var added := Add(t, Space);
    var r := NameTerminator(added.0, Space);
    AtRecorded(r, NoName);
    AtRecorded(r, Space);
    r
  }

  /** The table with the empty name recorded at the NUL that ends `s`. */
  function NameTerminator(t: StringTable, s: CString): (r: StringTable)
    requires Valid(t) && s in t.offsets
    ensures Valid(r) && r.text == t.text
    ensures r.offsets == t.offsets[NoName := t.offsets[s] + |s|]
  {
    var r := StringTable(t.text, t.offsets[NoName := t.offsets[s] + |s|]);
    TerminatorKeepsValid(t, s, r);
    r
  }

  lemma TerminatorKeepsValid(t: StringTable, s: CString, u: StringTable)
    requires Valid(t) && s in t.offsets
    requires u == StringTable(t.text, t.offsets[NoName := t.offsets[s] + |s|])
    ensures Valid(u)
  {
    var o := t.offsets[s] + |s|;
    forall n | n in u.offsets
      ensures NameAt(u.text, u.offsets[n], n)
    {
      if n == NoName {
        assert NameAt(t.text, t.offsets[s], s);
        assert u.text[o..o] == NoName;
      } else {
        assert u.offsets[n] == t.offsets[n];
      }
    }
  }

  /** Names only gain offsets: every name recorded in `a` is recorded at the
      same offset in `b`. */
  predicate Grows(a: StringTable, b: StringTable) {
    forall s :: s in a.offsets ==> s in b.offsets && b.offsets[s] == a.offsets[s]
  }

  lemma AddGrows(t: StringTable, str: CString)
    requires Valid(t)
    ensures Grows(t, Add(t, str).0)
  {
  }

  /** Distinct recorded names have distinct offsets: only " " is at 0, so
      the offset of any other name, the empty one included, is non-zero. */
  lemma OffsetsDistinct(t: StringTable, s1: CString, s2: CString)
    requires Valid(t) && s1 in t.offsets && s2 in t.offsets
    ensures t.offsets[s1] == t.offsets[s2] ==> s1 == s2
  {
    AtRecorded(t, s1);
    AtRecorded(t, s2);
  }

  /** StringTable::FileSize: the table is written as its whole text. */
  function FileSize(t: StringTable): (r: nat)
    ensures Valid(t) ==> forall s :: s in t.offsets ==> t.offsets[s] + |s| + 1 <= r
  {
    assert Valid(t) ==> forall s :: s in t.offsets ==> NameAt(t.text, t.offsets[s], s);
    |t.text|
  }
}
