/**
 * The OUI registry of index.js: `OUIDb` reads the IEEE Registration
 * Authority's `oui.txt` listing into a map from OUI (six hex digits, no
 * separators) to vendor details, and `getVendor` looks an address's OUI up
 * in such a map.
 *
 * The listing is a four-line header followed by blocks of lines separated
 * by empty lines; the lines of a block are split at the double tab into a
 * label and a value. A block's key is the first word of its first line's
 * label with the dashes removed (`BC-24-11   (hex)` gives `BC2411`); the
 * vendor's name, address, region and country are the values of its first,
 * third, fourth and fifth lines.
 */
module OuiRegistry {
  import opened Wrappers
  import opened Strings
  import opened MacAddress
  import opened Numerals

  /** The record `OUIDb` stores; a field whose line or value is missing is `undefined`. */
  datatype Vendor = Vendor(name: Option<string>, address: Option<string>, region: Option<string>, country: Option<string>)

  /** `data.replace(/\r\n/g, "\n").replace(/\t\t\t\t/g, "\t\t")` (index.js:98). */
  function Normalize(data: string): string
  {
    ReplaceAll(ReplaceAll(data, "\r\n", "\n"), "\t\t\t\t", "\t\t")
  }

  /** `ouitxt.split("\n")` followed by `lines.splice(0, 4)` (index.js:99-100): the header is dropped. */
  function Body(data: string): seq<string>
  {
    DropHeader(SplitOn(Normalize(data), "\n"))
  }

  /** `lines.splice(0, 4)`: removes the first four lines, or all of them when there are fewer. */
  function DropHeader(lines: seq<string>): (rest: seq<string>)
    ensures |lines| <= 4 ==> rest == []
    ensures |lines| > 4 ==> |rest| == |lines| - 4 && forall j :: 0 <= j < |rest| ==> rest[j] == lines[j + 4]
  {
    if |lines| <= 4 then [] else lines[4..]
  }

  /** A line split at its double tabs: a label, and a value when the line has one. */
  type Row = f: seq<string> | |f| >= 1 witness [""]

  /** `line.split("\t\t")`. */
  function Fields(line: string): Row
  {
    SplitOn(line, "\t\t")
  }

  /** A key as `OUIDb` makes them: neither spaces nor dashes. */
  predicate KeyShaped(k: string)
  {
    ' ' !in k && '-' !in k
  }

  /**
   * `group[0][0].split(" ")[0].replace(/-/g, "")` (index.js:108): the first
   * label up to its first space, every dash removed.
   */
  function Key(group: seq<Row>): string
    requires |group| >= 1
  {
    ReplaceAll(SplitOn(group[0][0], " ")[0], "-", "")
  }

  /** A key has neither spaces nor dashes: both were split away. */
  lemma KeyIsShaped(group: seq<Row>)
    requires |group| >= 1
    ensures KeyShaped(Key(group))
  {
    var word := SplitOn(group[0][0], " ")[0];
    SplitOnCharPieces(group[0][0], ' ');
    SplitOnCharPieces(word, '-');
    var pieces := SplitOn(word, "-");
    assert forall i :: 0 <= i < |pieces| ==> ' ' !in pieces[i];
    JoinAvoids(pieces, "", ' ');
    JoinAvoids(pieces, "", '-');
  }

  /** `group[i]?.[1]`: the value of the pending line `i`, when that line exists and has one. */
  function Field(group: seq<Row>, i: nat): (f: Option<string>)
    ensures f.Some? <==> i < |group| && |group[i]| >= 2
    ensures f.Some? ==> f.value == group[i][1]
  {
    if i < |group| && |group[i]| >= 2 then Some(group[i][1]) else None
  }

  /** The record of a block (index.js:109-116): values of its lines 1, 3, 4 and 5. */
  function Record(group: seq<Row>): Vendor
  {
    Vendor(Field(group, 0), Field(group, 2), Field(group, 3), Field(group, 4))
  }

  /** What `OUIDb` carries from one line to the next: the map so far and the pending block. */
  datatype State = State(db: map<string, Vendor>, group: seq<Row>)

  /** One iteration of the loop at index.js:103-121. */
  function Step(st: State, line: string): State
  {
    if |line| > 0 then State(st.db, st.group + [Fields(line)])
    else if |st.group| < 2 then st
    else
      var k := Key(st.group);
      State(if k in st.db then st.db else st.db[k := Record(st.group)], [])
  }

  /** The state after the loop has read `lines`, from an empty map and an empty block. */
  function Ingest(lines: seq<string>): State
  {
    if lines == [] then State(map[], [])
    else Step(Ingest(lines[..|lines| - 1]), lines[|lines| - 1])
  }

  /** Every key `OUIDb` stores has its shape. */
  lemma {:induction false} IngestKeysShaped(lines: seq<string>)
    ensures forall k :: k in Ingest(lines).db ==> KeyShaped(k)
    decreases |lines|
  {
    if lines != [] {
      var st := Ingest(lines[..|lines| - 1]);
      IngestKeysShaped(lines[..|lines| - 1]);
      if |st.group| >= 1 {
        KeyIsShaped(st.group);
      }
    }
  }

  /** Reading one more line is one more step. */
  lemma IngestSnoc(lines: seq<string>, line: string)
    ensures Ingest(lines + [line]) == Step(Ingest(lines), line)
  {
    assert (lines + [line])[..|lines|] == lines;
  }

  /** The map `OUIDb(data)` returns. */
  function Registry(data: string): map<string, Vendor>
  {
    Ingest(Body(data)).db
  }

  /** `OUIDb(data)` (index.js:97-123), its loop over the lines as the source writes it. */
  method Build(data: string) returns (ouis: map<string, Vendor>)
    ensures ouis == Registry(data)
    ensures forall k :: k in ouis ==> KeyShaped(k)
  {
    var lines := Body(data);
    ouis := map[];
    var group: seq<Row> := [];
    for i := 0 to |lines|
      invariant State(ouis, group) == Ingest(lines[..i])
    {
      assert lines[..i + 1][..i] == lines[..i];
      var line := lines[i];
      if |line| > 0 {
        group := group + [Fields(line)];
      } else {
        if |group| < 2 {
          continue;
        }
        var oui := Key(group);
        if oui !in ouis {
          ouis := ouis[oui := Record(group)];
        }
        group := [];
      }
    }
    assert lines[..|lines|] == lines;
    IngestKeysShaped(lines);
  }

  /** `getVendor(macAddress, ouiDb)` (index.js:133-135): `ouiDb.get(getOui(macAddress))`. */
  function GetVendor(input: MacInput, db: map<string, Vendor>): (r: Result<Option<Vendor>, Error>)
    ensures r.Err? <==> Parse(input).Err?
  {
    match GetOui(input)
    case Err(e) => Err(e)
    case Ok(oui) => Ok(if oui in db then Some(db[oui]) else None)
  }

  /** The block pending when line `i` is read. */
  function Pending(lines: seq<string>, i: nat): seq<Row>
    requires i <= |lines|
  {
    Ingest(lines[..i]).group
  }

  /** Line `i` is an empty line that closes a block of at least two lines. */
  predicate Flushes(lines: seq<string>, i: nat)
    requires i < |lines|
  {
    lines[i] == "" && |Pending(lines, i)| >= 2
  }

  /** Reading one more line never removes a key and never changes a stored record. */
  lemma StepKeeps(st: State, line: string)
    ensures st.db.Keys <= Step(st, line).db.Keys
    ensures forall k :: k in st.db ==> Step(st, line).db[k] == st.db[k]
  {
  }

  /** A key appears only when an empty line closes a block of at least two lines carrying it. */
  lemma StepAdds(st: State, line: string, k: string)
    requires k !in st.db && k in Step(st, line).db
    ensures line == "" && |st.group| >= 2 && Key(st.group) == k
    ensures Step(st, line).db[k] == Record(st.group)
  {
  }

  /**
   * Keys are never removed and a record, once stored, is never overwritten:
   * the map after any prefix of the lines is contained in the final map.
   */
  lemma {:induction false} Persist(lines: seq<string>, m: nat)
    requires m <= |lines|
    ensures Ingest(lines[..m]).db.Keys <= Ingest(lines).db.Keys
    ensures forall k :: k in Ingest(lines[..m]).db ==> Ingest(lines).db[k] == Ingest(lines[..m]).db[k]
    decreases |lines|
  {
    if m < |lines| {
      var p := lines[..|lines| - 1];
      assert p[..m] == lines[..m];
      Persist(p, m);
      StepKeeps(Ingest(p), lines[|lines| - 1]);
    } else {
      assert lines[..m] == lines;
    }
  }

  /** Every block that is closed with at least two lines has its key in the final map. */
  lemma Complete(lines: seq<string>, i: nat)
    requires i < |lines| && Flushes(lines, i)
    ensures Key(Pending(lines, i)) in Ingest(lines).db
  {
    assert lines[..i + 1][..i] == lines[..i];
    Persist(lines, i + 1);
  }

  /** Each closing of a block with at least two lines leaves the pending block empty. */
  lemma FlushClears(lines: seq<string>, i: nat)
    requires i < |lines| && Flushes(lines, i)
    ensures Pending(lines, i + 1) == []
  {
    assert lines[..i + 1][..i] == lines[..i];
  }

  /** An empty line that finds fewer than two pending lines changes nothing, the pending block included. */
  lemma ShortBlockKept(lines: seq<string>, i: nat)
    requires i < |lines| && lines[i] == "" && |Pending(lines, i)| < 2
    ensures Ingest(lines[..i + 1]) == Ingest(lines[..i])
  {
    assert lines[..i + 1][..i] == lines[..i];
  }

  /** A closing at line `i` is the first to carry key `k`. */
  predicate FirstFlush(lines: seq<string>, i: nat, k: string)
    requires i < |lines|
  {
    && Flushes(lines, i)
    && Key(Pending(lines, i)) == k
    && forall j :: 0 <= j < i && Flushes(lines, j) ==> Key(Pending(lines, j)) != k
  }

  /** What happened up to line `j` of a prefix is what happened up to line `j` of the whole. */
  lemma PendingPrefix(lines: seq<string>, m: nat)
    requires m <= |lines|
    ensures forall j :: 0 <= j <= m ==> Pending(lines[..m], j) == Pending(lines, j)
    ensures forall j :: 0 <= j < m ==> lines[..m][j] == lines[j]
  {
    assert forall j :: 0 <= j <= m ==> lines[..m][..j] == lines[..j];
  }

  /** A first closing stays a first closing when one more line is read. */
  lemma FirstFlushExtend(p: seq<string>, line: string, i: nat, k: string)
    requires i < |p| && FirstFlush(p, i, k)
    ensures FirstFlush(p + [line], i, k)
    ensures Pending(p + [line], i) == Pending(p, i)
  {
    assert (p + [line])[..|p|] == p;
    PendingPrefix(p + [line], |p|);
  }

  /**
   * The final map holds exactly the keys of the closed blocks, each with the
   * record of the FIRST block that carried it: every key stored comes from
   * a closing empty line `i` with that key and its record, and no earlier
   * closing carried the same key.
   */
  lemma {:induction false} Sound(lines: seq<string>, k: string)
    requires k in Ingest(lines).db
    ensures exists i :: 0 <= i < |lines| && FirstFlush(lines, i, k) && Ingest(lines).db[k] == Record(Pending(lines, i))
    decreases |lines|
  {
    var n := |lines|;
    var p, line := lines[..n - 1], lines[n - 1];
    assert lines == p + [line];
    if k in Ingest(p).db {
      Sound(p, k);
      var i :| 0 <= i < |p| && FirstFlush(p, i, k) && Ingest(p).db[k] == Record(Pending(p, i));
      SoundKept(p, line, i, k);
    } else {
      SoundAdded(p, line, k);
    }
  }

  /** `Sound` for a key the last line did not add. */
  lemma SoundKept(p: seq<string>, line: string, i: nat, k: string)
    requires i < |p| && FirstFlush(p, i, k)
    requires k in Ingest(p).db && Ingest(p).db[k] == Record(Pending(p, i))
    ensures k in Ingest(p + [line]).db && FirstFlush(p + [line], i, k)
    ensures Ingest(p + [line]).db[k] == Record(Pending(p + [line], i))
  {
    assert k in Ingest(p + [line]).db && Ingest(p + [line]).db[k] == Ingest(p).db[k] by {
      IngestSnoc(p, line);
      StepKeeps(Ingest(p), line);
    }
    FirstFlushExtend(p, line, i, k);
  }

  /** `Sound` for the key the last line added. */
  lemma SoundAdded(p: seq<string>, line: string, k: string)
    requires k !in Ingest(p).db && k in Ingest(p + [line]).db
    ensures FirstFlush(p + [line], |p|, k)
    ensures Ingest(p + [line]).db[k] == Record(Pending(p + [line], |p|))
  {
    var lines := p + [line];
    var group := Ingest(p).group;
    assert line == "" && |group| >= 2 && Key(group) == k && Ingest(lines).db[k] == Record(group) by {
      IngestSnoc(p, line);
      StepAdds(Ingest(p), line, k);
    }
    assert Pending(lines, |p|) == group by {
      assert lines[..|p|] == p;
    }
    assert Flushes(lines, |p|) by {
      assert lines[|p|] == line;
    }
    NoEarlierKey(p, line, k);
  }

  /** A key missing after a prefix was carried by no closing within it. */
  lemma NoEarlierKey(p: seq<string>, line: string, k: string)
    requires k !in Ingest(p).db
    ensures forall j :: 0 <= j < |p| && Flushes(p + [line], j) ==> Key(Pending(p + [line], j)) != k
  {
    forall j | 0 <= j < |p| && Flushes(p + [line], j)
      ensures Key(Pending(p + [line], j)) != k
    {
      NoKeyAt(p, line, k, j);
    }
  }

  /** `NoEarlierKey` for one closing. */
  lemma NoKeyAt(p: seq<string>, line: string, k: string, j: nat)
    requires k !in Ingest(p).db
    requires j < |p| && Flushes(p + [line], j)
    ensures Key(Pending(p + [line], j)) != k
  {
    SnocPending(p, line, j);
    assert Flushes(p, j);
    Complete(p, j);
  }

  /** Reading one more line leaves what happened before it alone. */
  lemma SnocPending(p: seq<string>, line: string, j: nat)
    requires j < |p|
    ensures Pending(p + [line], j) == Pending(p, j) && (p + [line])[j] == p[j]
  {
    assert (p + [line])[..j] == p[..j];
  }

  /** The first block to carry a key gives that key its record in the final map. */
  lemma FirstWins(lines: seq<string>, i: nat)
    requires i < |lines| && Flushes(lines, i) && FirstFlush(lines, i, Key(Pending(lines, i)))
    ensures Key(Pending(lines, i)) in Ingest(lines).db
    ensures Ingest(lines).db[Key(Pending(lines, i))] == Record(Pending(lines, i))
  {
    var k := Key(Pending(lines, i));
    Complete(lines, i);
    Sound(lines, k);
    var i' :| 0 <= i' < |lines| && FirstFlush(lines, i', k) && Ingest(lines).db[k] == Record(Pending(lines, i'));
    assert i' == i;
  }

  /**
   * Lines after the last empty line are never recorded: they only pile up
   * in the pending block, which is never flushed.
   */
  lemma {:induction false} TrailingIgnored(lines: seq<string>, tail: seq<string>)
    requires forall j :: 0 <= j < |tail| ==> tail[j] != ""
    ensures Ingest(lines + tail).db == Ingest(lines).db
    ensures |Ingest(lines + tail).group| == |Ingest(lines).group| + |tail|
    decreases |tail|
  {
    if tail == [] {
      assert lines + tail == lines;
    } else {
      var t := tail[..|tail| - 1];
      assert (lines + tail)[..|lines + tail| - 1] == lines + t;
      TrailingIgnored(lines, t);
    }
  }

  /**
   * The first four lines are never read: two listings whose lines agree from
   * the fifth on give the same lines to the loop, hence the same map.
   */
  lemma HeaderIgnored(data: string, data': string)
    requires var lines, lines' := SplitOn(Normalize(data), "\n"), SplitOn(Normalize(data'), "\n");
             || (|lines| <= 4 && |lines'| <= 4)
             || (|lines| == |lines'| && forall j :: 4 <= j < |lines| ==> lines[j] == lines'[j])
    ensures Body(data) == Body(data')
    ensures Registry(data) == Registry(data')
  {
    var lines, lines' := SplitOn(Normalize(data), "\n"), SplitOn(Normalize(data'), "\n");
    if |lines| > 4 {
      assert DropHeader(lines) == DropHeader(lines');
    }
  }

  /** Text with no `\r\n` and no run of four tabs is left as it is by the normalisation. */
  lemma NormalizeClean(data: string)
    requires !Occurs("\r\n", data) && !Occurs("\t\t\t\t", data)
    ensures Normalize(data) == data
  {
    ReplaceAllAbsent(data, "\r\n", "\n");
    ReplaceAllAbsent(data, "\t\t\t\t", "\t\t");
  }

  /** The lines the loop reads hold no line feed. */
  lemma BodyLines(data: string)
    ensures forall j :: 0 <= j < |Body(data)| ==> '\n' !in Body(data)[j]
  {
    SplitOnCharPieces(Normalize(data), '\n');
  }

  /** The fields of a line are the line cut at every double tab: none holds one, and rejoined they give the line. */
  lemma FieldsApart(line: string)
    ensures forall i :: 0 <= i < |Fields(line)| ==> !Occurs("\t\t", Fields(line)[i])
    ensures Join(Fields(line), "\t\t") == line
  {
    SplitOnPieces(line, "\t\t");
    JoinSplitOn(line, "\t\t");
  }

  /**
   * A lone line between empty lines is not dropped: it stays pending and
   * becomes the first line, hence the key line, of the next block.
   */
  lemma LoneLineCarried(lines: seq<string>, x: string, y: string)
    requires Pending(lines, |lines|) == [] && x != "" && y != ""
    ensures Ingest(lines + [x] + [""] + [y] + [""]).group == []
    ensures Ingest(lines + [x] + [""] + [y] + [""]).db.Keys == Ingest(lines).db.Keys + {Key([Fields(x), Fields(y)])}
  {
    var s0 := Ingest(lines);
    assert lines[..|lines|] == lines;
    IngestSnoc(lines, x);
    IngestSnoc(lines + [x], "");
    IngestSnoc(lines + [x] + [""], y);
    IngestSnoc(lines + [x] + [""] + [y], "");
    LoneLineStep(s0.db, x, y);
  }

  /** The steps of `LoneLineCarried`, on states. */
  lemma LoneLineStep(db: map<string, Vendor>, x: string, y: string)
    requires x != "" && y != ""
    ensures var st := Step(Step(Step(Step(State(db, []), x), ""), y), "");
            && st.group == []
            && st.db.Keys == db.Keys + {Key([Fields(x), Fields(y)])}
  {
  }

  /**
   * Looking up a 48-bit address's vendor is a map lookup by the first six
   * of its twelve upper-case hex digits; a miss is an absent answer, not
   * an error.
   */
  lemma GetVendorLookup(v: int, db: map<string, Vendor>)
    requires 0 <= v < TwoTo48
    ensures var oui := Digits(v, 12)[..6];
            GetVendor(Int(v), db) == Ok(if oui in db then Some(db[oui]) else None)
  {
    OuiDigits(v);
  }

  /**
   * A vendor is found for an address whose OUI was the key of a closed block
   * of the registry; the answer is the record of the first such block.
   */
  lemma VendorOfBlock(lines: seq<string>, i: nat, v: int)
    requires 0 <= v < TwoTo48
    requires i < |lines| && Flushes(lines, i)
    requires FirstFlush(lines, i, Digits(v, 12)[..6])
    ensures GetVendor(Int(v), Ingest(lines).db) == Ok(Some(Record(Pending(lines, i))))
  {
    FirstWins(lines, i);
    GetVendorLookup(v, Ingest(lines).db);
  }
}
