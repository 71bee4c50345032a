/** `get_dic`: a Eurostat dictionary file (one `code<TAB>label` per line)
    read into a dict, once the lines have been downloaded and decoded. */
module Dictionary {
  import opened Wrappers
  import opened PyStr
  import opened PyDict

  /** The two ways the call fails: the server's "not found" line (the source
      prints it and returns `None`), and `dict()` raising `ValueError` for an
      entry that is not a pair, with its index and length. */
  datatype DicError = NotReadable | BadEntry(index: nat, length: nat)

  /** The line the server sends in place of a missing dictionary. */
  function Sentinel(code: string): string
  {
    "File " + code + ".dic does not exist or is not readable on the server"
  }

  predicate IsLineEnd(c: char)
  {
    c == '\r' || c == '\n'
  }

  /** `line.rstrip('\r\n').split('\t')`. */
  function LineFields(line: string): (fields: seq<string>)
    ensures |fields| >= 1
  {
    Split(RStrip(line, IsLineEnd), '\t')
  }

  /** The fields of every line, in order: the list `dic` when no line is the
      sentinel. */
  function Entries(lines: seq<string>): (entries: seq<seq<string>>)
    ensures |entries| == |lines|
  {
    seq(|lines|, j requires 0 <= j < |lines| => LineFields(lines[j]))
  }

  /** `dict(entries)`: entries are inserted in order and the first one that
      is not a pair raises `ValueError`. */
  function ToDict(entries: seq<seq<string>>): (r: Result<map<string, string>, DicError>)
    ensures r.Err? ==> r.error.BadEntry?
  {
    if |entries| == 0 then Ok(map[])
    else
      var last := entries[|entries| - 1];
      match ToDict(entries[..|entries| - 1])
      case Err(e) => Err(e)
      case Ok(m) =>
        if |last| != 2 then Err(BadEntry(|entries| - 1, |last|))
        else Ok(m[last[0] := last[1]])
  }

  /** Whether some line of the file is the sentinel. */
  predicate HasSentinel(code: string, lines: seq<string>)
  {
    exists j :: 0 <= j < |lines| && Sentinel(code) in LineFields(lines[j])
  }

  /** What `get_dic` gives for the lines of the file. */
  function Dic(code: string, lines: seq<string>): (r: Result<map<string, string>, DicError>)
    ensures r.Ok? ==> !HasSentinel(code, lines)
    ensures r.Ok? ==> forall j :: 0 <= j < |lines| ==> |LineFields(lines[j])| == 2
  {
    if HasSentinel(code, lines) then Err(NotReadable)
    else
      var d := ToDict(Entries(lines));
      if d.Ok? then
        ToDictOnlyPairs(Entries(lines));
        assert forall j :: 0 <= j < |lines| ==> Entries(lines)[j] == LineFields(lines[j]);
        d
      else d
  }

  /** The loop over the lines of the download, appending each line's fields
      and stopping at the sentinel, then `dict(dic)`. */
  method GetDic(code: string, lines: seq<string>) returns (r: Result<map<string, string>, DicError>)
    ensures r == Dic(code, lines)
  {
    var strerr := Sentinel(code);
    var dic: seq<seq<string>> := [];
    var i := 0;
    while i < |lines|
      invariant 0 <= i <= |lines|
      invariant dic == Entries(lines[..i])
      invariant forall j :: 0 <= j < i ==> strerr !in LineFields(lines[j])
    {
      var d := LineFields(lines[i]);
      if strerr in d {
        return Err(NotReadable);
      }
      dic := dic + [d];
      i := i + 1;
    }
    assert lines[..i] == lines;
    r := ToDict(dic);
  }

  /* ---------- Properties ---------- */

  /** The entries as the pairs `dict()` inserts. */
  function AsPairs(entries: seq<seq<string>>): (ps: seq<(string, string)>)
    requires forall j :: 0 <= j < |entries| ==> |entries[j]| == 2
    ensures |ps| == |entries|
  {
    seq(|entries|, j requires 0 <= j < |entries| => (entries[j][0], entries[j][1]))
  }

  /** When every entry is a pair, `dict()` succeeds with the dict of the
      pairs. */
  lemma {:induction false} ToDictPairs(entries: seq<seq<string>>)
    requires forall j :: 0 <= j < |entries| ==> |entries[j]| == 2
    ensures ToDict(entries) == Ok(DictOf(AsPairs(entries)))
  {
    if |entries| > 0 {
      var init := entries[..|entries| - 1];
      assert forall j :: 0 <= j < |init| ==> init[j] == entries[j];
      ToDictPairs(init);
      var ps := AsPairs(entries);
      assert ps[..|ps| - 1] == AsPairs(init);
    }
  }

  /** `dict()` succeeds only when every entry is a pair. */
  lemma {:induction false} ToDictOnlyPairs(entries: seq<seq<string>>)
    requires ToDict(entries).Ok?
    ensures forall j :: 0 <= j < |entries| ==> |entries[j]| == 2
  {
    if |entries| > 0 {
      var init := entries[..|entries| - 1];
      ToDictOnlyPairs(init);
      forall j | 0 <= j < |entries|
        ensures |entries[j]| == 2
      {
        if j < |init| {
          assert init[j] == entries[j];
        }
      }
    }
  }

  /** `dict()` succeeds exactly when every entry is a pair. */
  lemma ToDictOk(entries: seq<seq<string>>)
    ensures ToDict(entries).Ok? <==> forall j :: 0 <= j < |entries| ==> |entries[j]| == 2
  {
    if ToDict(entries).Ok? {
      ToDictOnlyPairs(entries);
    }
    if forall j :: 0 <= j < |entries| ==> |entries[j]| == 2 {
      ToDictPairs(entries);
    }
  }

  /** `dict()` fails on the first entry that is not a pair, reporting its
      index and length. */
  lemma {:induction false} ToDictError(entries: seq<seq<string>>)
    requires ToDict(entries).Err?
    ensures var i := ToDict(entries).error.index;
      i < |entries| && |entries[i]| != 2 && ToDict(entries).error.length == |entries[i]| &&
      forall j :: 0 <= j < i ==> |entries[j]| == 2
  {
    var init := entries[..|entries| - 1];
    assert forall j :: 0 <= j < |init| ==> init[j] == entries[j];
    if ToDict(init).Err? {
      ToDictError(init);
    } else {
      ToDictOk(init);
    }
  }

  /** The result is "not readable" exactly when some line is the sentinel. */
  lemma NotReadableIffSentinel(code: string, lines: seq<string>)
    ensures Dic(code, lines) == Err(NotReadable) <==> HasSentinel(code, lines)
  {
  }

  /** Without the sentinel and with every line split into a code and a label,
      each code maps to the label of its last line. */
  lemma DicLastWins(code: string, lines: seq<string>, i: nat)
    requires !HasSentinel(code, lines) && Dic(code, lines).Ok? && i < |lines|
    requires forall j :: i < j < |lines| ==> LineFields(lines[j])[0] != LineFields(lines[i])[0]
    ensures var f, m := LineFields(lines[i]), Dic(code, lines).value;
      |f| == 2 && f[0] in m && m[f[0]] == f[1]
  {
    var entries := Entries(lines);
    assert Dic(code, lines) == ToDict(entries);
    ToDictOnlyPairs(entries);
    ToDictPairs(entries);
    var ps := AsPairs(entries);
    forall j | i < j < |ps|
      ensures ps[j].0 != ps[i].0
    {
      assert entries[j] == LineFields(lines[j]);
    }
    assert entries[i] == LineFields(lines[i]);
    DictOfLast(ps, i);
  }

  /** Every code in the dict is the first field of some line. */
  lemma DicKeys(code: string, lines: seq<string>, k: string)
    requires Dic(code, lines).Ok? && k in Dic(code, lines).value
    ensures exists j :: 0 <= j < |lines| && LineFields(lines[j])[0] == k
  {
    var entries := Entries(lines);
    assert Dic(code, lines) == ToDict(entries);
    ToDictOnlyPairs(entries);
    ToDictPairs(entries);
    var ps := AsPairs(entries);
    assert k in DictOf(ps);
    var j :| 0 <= j < |ps| && ps[j].0 == k;
    assert entries[j] == LineFields(lines[j]);
  }

  /** A line `code<TAB>label` with any `\r`/`\n` ending reads back as the pair
      (code, label) when neither holds a tab and the label does not itself
      end with a line-end character. */
  lemma LineFieldsOfEntry(key: string, name: string, eol: string)
    requires '\t' !in key && '\t' !in name
    requires |name| == 0 || !IsLineEnd(name[|name| - 1])
    requires forall j :: 0 <= j < |eol| ==> IsLineEnd(eol[j])
    ensures LineFields(key + "\t" + name + eol) == [key, name]
  {
    var body := key + "\t" + name;
    assert !IsLineEnd(body[|body| - 1]);
    RStripSuffix(body, eol, IsLineEnd);
    SplitAtFirst(key, name, '\t');
    SplitNoSep(name, '\t');
  }
}
