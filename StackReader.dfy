/** EDF_StackReader.run: from the image the user picked, derive a name prefix,
    list the directory in name order, and read every file whose name contains
    the prefix as one slice of a stack. A directory is its list of entry names
    and a map from the names of readable files to their contents. */
module StackReader {
  import opened JavaLang
  import opened EdfFormat
  import opened HeaderDecoder

  // ---------------------------------------------------------------------------
  // The prefix

  /** The prefix loop from `index` down: the first position at or below it
      holding a non-digit. Reaching index -1 is charAt(-1), which throws
      (None). */
  function PrefixEnd(name: string, index: int): (e: Option<nat>)
    requires index < |name|
    ensures e.Some? ==> e.value <= index
    decreases index + 1
  {
    if index < 0 then None
    else if !IsDigit(name[index]) then Some(index)
    else PrefixEnd(name, index - 1)
  }

  /** The prefix of the chosen file: everything up to and including the last
      non-digit before the final '.'; None when charAt throws, which happens when
      the name has no '.', when it starts with '.', or when only digits precede
      the '.'. */
  function DerivePrefix(name: string): Option<string>
  {
    match PrefixEnd(name, LastIndexOf(name, '.') - 1)
    case None => None
    case Some(e) => Some(name[..e + 1])
  }

  lemma {:induction false} PrefixEndSpec(name: string, index: int)
    requires index < |name|
    ensures PrefixEnd(name, index).Some? <==> exists k | 0 <= k <= index :: !IsDigit(name[k])
    ensures PrefixEnd(name, index).Some? ==>
              var e := PrefixEnd(name, index).value;
              e <= index && !IsDigit(name[e]) && forall k | e < k <= index :: IsDigit(name[k])
    decreases index + 1
  {
    if 0 <= index && IsDigit(name[index]) {
      PrefixEndSpec(name, index - 1);
      if exists k | 0 <= k <= index :: !IsDigit(name[k]) {
        var k :| 0 <= k <= index && !IsDigit(name[k]);
        assert k != index;
      }
    }
  }

  /** A prefix exists exactly when some non-digit precedes the last '.'; it is
      then a start of the name that ends in a non-digit, with only ASCII digits
      between it and the '.'. */
  lemma PrefixSpec(name: string)
    ensures var dot := LastIndexOf(name, '.');
            DerivePrefix(name).Some? <==> exists k | 0 <= k < dot :: !IsDigit(name[k])
    ensures var dot := LastIndexOf(name, '.');
            DerivePrefix(name).Some? ==>
              var p := DerivePrefix(name).value;
              0 < |p| <= dot && p == name[..|p|] && !IsDigit(p[|p| - 1]) &&
              AllDigits(name[|p|..dot])
  {
    var dot := LastIndexOf(name, '.');
    PrefixEndSpec(name, dot - 1);
    if DerivePrefix(name).Some? {
      var p := DerivePrefix(name).value;
      assert forall k | 0 <= k < |name[|p|..dot]| :: name[|p|..dot][k] == name[|p| + k];
    }
  }

  /** A name made of a stem ending in a non-digit, a run of digits and a
      suffix holding exactly one '.', at its start, has the stem as its
      prefix. */
  lemma NumberedName(stem: string, digits: string, suffix: string)
    requires stem != [] && !IsDigit(stem[|stem| - 1])
    requires AllDigits(digits)
    requires suffix != [] && suffix[0] == '.' && '.' !in suffix[1..]
    ensures DerivePrefix(stem + digits + suffix) == Some(stem)
  {
    var name := stem + digits + suffix;
    var dot := |stem| + |digits|;
    assert name[dot] == '.';
    assert forall k | dot < k < |name| :: name[k] == suffix[1..][k - dot - 1];
    assert LastIndexOf(name, '.') == dot;
    PrefixEndSpec(name, dot - 1);
    assert name[|stem| - 1] == stem[|stem| - 1];
    assert forall k | |stem| <= k < dot :: name[k] == digits[k - |stem|];
    assert PrefixEnd(name, dot - 1) == Some(|stem| - 1);
    assert name[..|stem|] == stem;
  }

  /** sample_0001.edf belongs to the stack of sample_ files. */
  lemma NumberedExample()
    ensures DerivePrefix("sample_" + "0001" + ".edf") == Some("sample_")
  {
    assert AllDigits("0001");
    NumberedName("sample_", "0001", ".edf");
  }

  /** A name with no number before the '.' is its own prefix. */
  lemma UnnumberedExample()
    ensures DerivePrefix("run" + "" + ".edf") == Some("run")
  {
    NumberedName("run", "", ".edf");
  }

  /** The prefix loop of run: step `index` down from before the last '.' until
      it rests on a non-digit. charAt out of range throws: None. */
  method ExtractPrefix(fileName: string) returns (prefix: Option<string>)
    ensures prefix == DerivePrefix(fileName)
  {
    var dot := LastIndexOf(fileName, '.');
    var index := dot - 1;
    var foundLastIndex := false;
    while !foundLastIndex
      invariant -2 <= index < |fileName|
      invariant !foundLastIndex ==> PrefixEnd(fileName, index) == PrefixEnd(fileName, dot - 1)
      invariant foundLastIndex ==> 0 <= index && PrefixEnd(fileName, dot - 1) == Some(index)
      decreases index + 2 + (if foundLastIndex then 0 else 1)
    {
      if index < 0 {
        // charAt(index) throws StringIndexOutOfBoundsException
        return None;
      }
      var digit := fileName[index];
      if digit < '0' || digit > '9' {
        foundLastIndex := true;
      } else {
        index := index - 1;
      }
    }
    prefix := Some(fileName[..index + 1]);
  }

  // ---------------------------------------------------------------------------
  // Arrays.sort with the name comparator

  /** s is in ascending compareTo order. */
  predicate SortedNames(s: seq<string>)
  {
    forall i, j | 0 <= i < j < |s| :: Below(s[i], s[j])
  }

  function Insert(x: string, s: seq<string>): seq<string>
  {
    if s == [] then [x]
    else if Below(x, s[0]) then [x] + s
    else [s[0]] + Insert(x, s[1..])
  }

  /** The directory listing in ascending compareTo order of the names. */
  function SortNames(names: seq<string>): seq<string>
  {
    if names == [] then [] else Insert(names[0], SortNames(names[1..]))
  }

  /** x is at or below every element of s. */
  predicate AllAbove(x: string, s: seq<string>)
  {
    forall k | 0 <= k < |s| :: Below(x, s[k])
  }

  lemma SortedCons(x: string, s: seq<string>)
    ensures SortedNames([x] + s) <==> AllAbove(x, s) && SortedNames(s)
  {
    var c := [x] + s;
    if AllAbove(x, s) && SortedNames(s) {
      forall i, j | 0 <= i < j < |c| ensures Below(c[i], c[j]) {
        if i == 0 {
          assert c[j] == s[j - 1];
        } else {
          assert c[i] == s[i - 1] && c[j] == s[j - 1];
        }
      }
    }
    if SortedNames(c) {
      forall k | 0 <= k < |s| ensures Below(x, s[k]) {
        assert c[0] == x && c[k + 1] == s[k];
      }
      forall i, j | 0 <= i < j < |s| ensures Below(s[i], s[j]) {
        assert c[i + 1] == s[i] && c[j + 1] == s[j];
      }
    }
  }

  /** AllAbove holds of every sub-multiset. */
  lemma AllAboveSubset(x: string, s: seq<string>, t: seq<string>)
    requires AllAbove(x, s) && multiset(t) <= multiset(s)
    ensures AllAbove(x, t)
  {
    forall k | 0 <= k < |t| ensures Below(x, t[k]) {
      assert t[k] in multiset(t);
      assert t[k] in multiset(s);
      var m :| 0 <= m < |s| && s[m] == t[k];
    }
  }

  lemma {:induction false} InsertMultiset(x: string, s: seq<string>)
    ensures multiset(Insert(x, s)) == multiset(s) + multiset{x}
  {
    if s != [] && !Below(x, s[0]) {
      InsertMultiset(x, s[1..]);
      assert s == [s[0]] + s[1..];
    }
  }

  lemma {:induction false} InsertSorted(x: string, s: seq<string>)
    requires SortedNames(s)
    ensures SortedNames(Insert(x, s))
  {
    if s == [] {
    } else if Below(x, s[0]) {
      assert s == [s[0]] + s[1..];
      SortedCons(s[0], s[1..]);
      forall k | 0 <= k < |s| ensures Below(x, s[k]) {
        if k > 0 {
          BelowTransitive(x, s[0], s[k]);
        }
      }
      SortedCons(x, s);
    } else {
      BelowTotal(x, s[0]);
      assert s == [s[0]] + s[1..];
      SortedCons(s[0], s[1..]);
      InsertSorted(x, s[1..]);
      InsertMultiset(x, s[1..]);
      assert AllAbove(s[0], s[1..] + [x]);
      assert multiset(s[1..] + [x]) == multiset(s[1..]) + multiset{x};
      AllAboveSubset(s[0], s[1..] + [x], Insert(x, s[1..]));
      SortedCons(s[0], Insert(x, s[1..]));
    }
  }

  /** The sorted listing is in order and holds the same names, each as often. */
  lemma {:induction false} SortNamesSpec(names: seq<string>)
    ensures multiset(SortNames(names)) == multiset(names)
    ensures SortedNames(SortNames(names))
  {
    if names != [] {
      SortNamesSpec(names[1..]);
      InsertMultiset(names[0], SortNames(names[1..]));
      InsertSorted(names[0], SortNames(names[1..]));
      assert names == [names[0]] + names[1..];
    }
  }

  /** Two sorted arrangements of one listing start with the same name. */
  lemma SortedHeads(a: seq<string>, b: seq<string>)
    requires SortedNames(a) && SortedNames(b) && multiset(a) == multiset(b) && a != [] && b != []
    ensures a[0] == b[0]
  {
    BelowReflexive(a[0]);
    BelowReflexive(b[0]);
    assert AllAbove(a[0], a) by {
      forall k | 0 <= k < |a| ensures Below(a[0], a[k]) {
        if k > 0 {
          assert Below(a[0], a[k]);
        }
      }
    }
    assert AllAbove(b[0], b) by {
      forall k | 0 <= k < |b| ensures Below(b[0], b[k]) {
        if k > 0 {
          assert Below(b[0], b[k]);
        }
      }
    }
    AllAboveSubset(a[0], a, b);
    AllAboveSubset(b[0], b, a);
    BelowAntisymmetric(a[0], b[0]);
  }

  /** compareTo orders distinct names strictly, so there is only one sorted
      arrangement of a listing: whatever algorithm Arrays.sort runs, it yields
      SortNames. */
  lemma {:induction false} SortedUnique(a: seq<string>, b: seq<string>)
    requires SortedNames(a) && SortedNames(b) && multiset(a) == multiset(b)
    ensures a == b
    decreases |a|
  {
    if a != [] {
      assert |b| == |multiset(b)| == |a|;
      SortedHeads(a, b);
      assert a == [a[0]] + a[1..] && b == [b[0]] + b[1..];
      SortedCons(a[0], a[1..]);
      SortedCons(b[0], b[1..]);
      assert multiset(a[1..]) == multiset(a) - multiset{a[0]};
      assert multiset(b[1..]) == multiset(b) - multiset{b[0]};
      SortedUnique(a[1..], b[1..]);
    }
  }

  /** Any sort of the listing into ascending name order is SortNames. */
  lemma SortIsDetermined(names: seq<string>, sorted: seq<string>)
    requires SortedNames(sorted) && multiset(sorted) == multiset(names)
    ensures sorted == SortNames(names)
  {
    SortNamesSpec(names);
    SortedUnique(sorted, SortNames(names));
  }

  // ---------------------------------------------------------------------------
  // The selection

  /** The names that contain the prefix, in their listing order. */
  function Filter(names: seq<string>, prefix: string): (r: seq<string>)
    ensures |r| <= |names|
  {
    if names == [] then []
    else if Contains(names[0], prefix) then [names[0]] + Filter(names[1..], prefix)
    else Filter(names[1..], prefix)
  }

  lemma {:induction false} FilterMultiset(names: seq<string>, prefix: string)
    ensures forall x :: multiset(Filter(names, prefix))[x] ==
                          if Contains(x, prefix) then multiset(names)[x] else 0
  {
    if names != [] {
      FilterMultiset(names[1..], prefix);
      assert names == [names[0]] + names[1..];
    }
  }

  lemma {:induction false} FilterSorted(names: seq<string>, prefix: string)
    requires SortedNames(names)
    ensures SortedNames(Filter(names, prefix))
  {
    if names != [] {
      assert names == [names[0]] + names[1..];
      SortedCons(names[0], names[1..]);
      FilterSorted(names[1..], prefix);
      if Contains(names[0], prefix) {
        FilterMultiset(names[1..], prefix);
        AllAboveSubset(names[0], names[1..], Filter(names[1..], prefix));
        SortedCons(names[0], Filter(names[1..], prefix));
      }
    }
  }

  /** The files the stack is made of: the listing in name order, keeping every
      name that contains the prefix anywhere. */
  function Selected(names: seq<string>, prefix: string): seq<string>
  {
    Filter(SortNames(names), prefix)
  }

  /** A name is selected exactly when it is listed and contains the prefix;
      each is selected as often as it is listed, and the selection is in
      ascending name order. */
  lemma SelectedSpec(names: seq<string>, prefix: string)
    ensures forall x :: x in Selected(names, prefix) <==> x in names && Contains(x, prefix)
    ensures forall x :: multiset(Selected(names, prefix))[x] ==
                          if Contains(x, prefix) then multiset(names)[x] else 0
    ensures SortedNames(Selected(names, prefix))
  {
    SortNamesSpec(names);
    FilterMultiset(SortNames(names), prefix);
    FilterSorted(SortNames(names), prefix);
    forall x ensures x in Selected(names, prefix) <==> x in names && Contains(x, prefix) {
      assert x in Selected(names, prefix) <==> x in multiset(Selected(names, prefix));
      assert x in names <==> x in multiset(names);
    }
  }

  // ---------------------------------------------------------------------------
  // Reading the stack

  /** The contents of a directory entry, or None when opening it fails. */
  function FileOf(contents: map<string, string>, name: string): Option<string>
  {
    if name in contents then Some(contents[name]) else None
  }

  /** Each slice's FileInfo as handed to the raster reader: the plugin's
      defaults with the entry's name, updated from the entry's header. */
  function ReadSlice(contents: map<string, string>, name: string): Outcome<FileInfo>
  {
    ParseHeader(StackPlugin, "EDF", FileOf(contents, name), DefaultInfo(name))
  }

  /** The slices read so far, followed by the outcome of reading the rest. */
  function Prepend(done: seq<FileInfo>, rest: Outcome<seq<FileInfo>>): Outcome<seq<FileInfo>>
  {
    match rest
    case Done(infos) => Done(done + infos)
    case Threw => Threw
    case Hangs => Hangs
  }

  /** Reading the given files in order; the first one that throws or hangs ends
      the plugin. */
  function ReadAll(contents: map<string, string>, names: seq<string>): Outcome<seq<FileInfo>>
  {
    if names == [] then Done([])
    else
      match ReadSlice(contents, names[0])
      case Threw => Threw
      case Hangs => Hangs
      case Done(info) => Prepend([info], ReadAll(contents, names[1..]))
  }

  /** run(arg) after the dialog returned `fileName`: the FileInfos of the stack's
      slices, in order. The stack takes its size from the first of them. */
  function Run(fileName: string, names: seq<string>, contents: map<string, string>): Outcome<seq<FileInfo>>
  {
    match DerivePrefix(fileName)
    case None => Threw
    case Some(prefix) => ReadAll(contents, Selected(names, prefix))
  }

  /** A finished read has one slice per selected file, in order, each what
      reading that file alone gives. */
  lemma {:induction false} ReadAllSlices(contents: map<string, string>, names: seq<string>, infos: seq<FileInfo>)
    requires ReadAll(contents, names) == Done(infos)
    ensures |infos| == |names|
    ensures forall i | 0 <= i < |names| :: ReadSlice(contents, names[i]) == Done(infos[i])
  {
    if names != [] {
      var info := ReadSlice(contents, names[0]).value;
      var rest := ReadAll(contents, names[1..]).value;
      assert infos == [info] + rest;
      ReadAllSlices(contents, names[1..], rest);
      forall i | 0 <= i < |names| ensures ReadSlice(contents, names[i]) == Done(infos[i]) {
        if i > 0 {
          assert names[i] == names[1..][i - 1];
        }
      }
    }
  }

  /** The size of the ImageStack: new ImageStack(fileInfo.width, fileInfo.height)
      is built from the first slice read. */
  function StackSize(infos: seq<FileInfo>): (int, int)
    requires infos != []
  {
    (infos[0].width, infos[0].height)
  }

  /** A finished run builds a stack exactly when some file was selected. It has
      one slice per selected file, and its size is the geometry that the header
      of the first selected file (in compareTo order) gives. */
  lemma StackTakesFirstSize(fileName: string, names: seq<string>, contents: map<string, string>,
                            infos: seq<FileInfo>)
    requires Run(fileName, names, contents) == Done(infos)
    ensures DerivePrefix(fileName).Some?
    ensures |infos| == |Selected(names, DerivePrefix(fileName).value)|
    ensures infos != [] ==>
              var first := Selected(names, DerivePrefix(fileName).value)[0];
              ReadSlice(contents, first).Done? &&
              StackSize(infos) == (ReadSlice(contents, first).value.width,
                                   ReadSlice(contents, first).value.height)
  {
    ReadAllSlices(contents, Selected(names, DerivePrefix(fileName).value), infos);
  }

  /** Both outcomes are the same failure. */
  predicate SameFailure(slice: Outcome<FileInfo>, stack: Outcome<seq<FileInfo>>)
  {
    (slice.Threw? && stack.Threw?) || (slice.Hangs? && stack.Hangs?)
  }

  /** A read that fails does so on a selected file that throws or hangs, after
      every file before it was read. */
  lemma {:induction false} ReadAllFails(contents: map<string, string>, names: seq<string>)
    requires !ReadAll(contents, names).Done?
    ensures exists i | 0 <= i < |names| ::
              SameFailure(ReadSlice(contents, names[i]), ReadAll(contents, names)) &&
              forall j | 0 <= j < i :: ReadSlice(contents, names[j]).Done?
  {
    if ReadSlice(contents, names[0]).Done? {
      ReadAllFails(contents, names[1..]);
      var i :| 0 <= i < |names[1..]| &&
               SameFailure(ReadSlice(contents, names[1..][i]), ReadAll(contents, names[1..])) &&
               forall j | 0 <= j < i :: ReadSlice(contents, names[1..][j]).Done?;
      forall j | 0 <= j < i + 1 ensures ReadSlice(contents, names[j]).Done? {
        if j > 0 {
          assert names[j] == names[1..][j - 1];
        }
      }
      assert SameFailure(ReadSlice(contents, names[i + 1]), ReadAll(contents, names));
    } else {
      assert SameFailure(ReadSlice(contents, names[0]), ReadAll(contents, names));
    }
  }

  lemma PrependNothing(o: Outcome<seq<FileInfo>>)
    ensures Prepend([], o) == o
  {
    if o.Done? {
      assert [] + o.value == o.value;
    }
  }

  lemma PrependConcat(a: seq<FileInfo>, info: FileInfo, rest: Outcome<seq<FileInfo>>)
    ensures Prepend(a, Prepend([info], rest)) == Prepend(a + [info], rest)
  {
    if rest.Done? {
      assert a + ([info] + rest.value) == a + [info] + rest.value;
    }
  }

  /** run(arg) from the chosen file name on: the prefix loop, the sort, then
      the loop over the sorted listing that reads every file containing the
      prefix. */
  method ReadStack(fileName: string, names: seq<string>, contents: map<string, string>)
    returns (r: Outcome<seq<FileInfo>>)
    ensures r == Run(fileName, names, contents)
  {
    var found := ExtractPrefix(fileName);
    if found.None? {
      return Threw;
    }
    var prefix := found.value;
    var files := SortNames(names);
    var slices: seq<FileInfo> := [];
    var i := 0;
    assert files[0..] == files;
    PrependNothing(ReadAll(contents, Selected(names, prefix)));
    while i < |files|
      invariant 0 <= i <= |files|
      invariant Prepend(slices, ReadAll(contents, Filter(files[i..], prefix))) == Run(fileName, names, contents)
    {
      var name := files[i];
      assert files[i..] == [name] + files[i + 1..];
      ghost var rest := Filter(files[i + 1..], prefix);
      if Contains(name, prefix) {
        assert Filter(files[i..], prefix) == [name] + rest;
        assert ([name] + rest)[1..] == rest;
        var fileInfo := ParseEsrfDataFormatHeader(StackPlugin, "EDF", FileOf(contents, name), DefaultInfo(name));
        if fileInfo.Threw? {
          return Threw;
        }
        if fileInfo.Hangs? {
          return Hangs;
        }
        PrependConcat(slices, fileInfo.value, ReadAll(contents, Filter(files[i + 1..], prefix)));
        slices := slices + [fileInfo.value];
      }
      i := i + 1;
    }
    assert files[i..] == [];
    r := Done(slices);
    assert slices + [] == slices;
  }
}
