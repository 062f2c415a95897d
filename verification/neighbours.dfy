/** Reading the neighbour file of the gossip daemon
    (`GossipDaemon.read_file_of_neighbours` in gossip.py): one `<id>,<ip>`
    pair per line. The file is given as the lines `readlines()` yields;
    failing to open or read it is not modelled. */
module Neighbours {
  import opened Wrappers
  import opened Text

  /** A line that does not split into exactly two fields, with the number of
      fields it did split into. */
  datatype LineError = WrongFieldCount(fields: nat)

  /** The `ValueError` the reader re-raises, at the first ill-formatted line. */
  datatype NeighbourError = IllFormatted(line: nat, fields: nat)

  /** One line: stripped, split on a comma followed by at most one whitespace
      character, and accepted only if that gives exactly two fields — that
      is, exactly when the stripped line holds exactly one comma
      (`ParseLineFields` says what the two fields are). */
  function ParseLine(line: string): (r: Result<(string, string), LineError>)
    ensures r.Success? <==> Count(Strip(line), ',') == 1
    ensures r.Failure? ==> r.error.fields == Count(Strip(line), ',') + 1
  {
    var fields := SplitCommaSpace(Strip(line));
    SplitCount(Strip(line), ',');
    if |fields| == 2 then Success((fields[0], fields[1])) else Failure(WrongFieldCount(|fields|))
  }

  /** The id is everything before the comma of the stripped line; the
      address is what follows it, less one leading whitespace character if
      there is one. Neither contains a comma. */
  lemma ParseLineFields(line: string)
    requires ParseLine(line).Success?
    ensures
      var t := Strip(line);
      var (id, ip) := ParseLine(line).value;
      && |id| < |t|
      && t == id + [','] + t[|id| + 1..]
      && ip == DropOneSpace(t[|id| + 1..])
      && ',' !in id && ',' !in ip
  {
    var t := Strip(line);
    var raw := Split(t, ',');
    SplitCount(t, ',');
    JoinSplit(t, ',');
    assert Join(raw, ',') == raw[0] + [','] + raw[1];
  }

  /** A line as the daemon's own tests write it: `"%s,%s\n"`. */
  function FormatLine(id: string, ip: string): string {
    id + [','] + ip + ['\n']
  }

  /** An id and an address that survive the round trip: no commas, nothing
      that `strip()` or the separator's optional whitespace would eat. */
  predicate WellFormedPair(id: string, ip: string) {
    && ',' !in id && ',' !in ip
    && (id == [] || !IsSpace(id[0]))
    && (ip == [] || (!IsSpace(ip[0]) && !IsSpace(ip[|ip| - 1])))
  }

  /** Reading back a written line gives the pair that was written. */
  lemma ParseFormatLine(id: string, ip: string)
    requires WellFormedPair(id, ip)
    ensures ParseLine(FormatLine(id, ip)) == Success((id, ip))
  {
    var body := id + [','] + ip;
    var line := FormatLine(id, ip);
    assert line == body + ['\n'];
    assert !IsSpace(line[0]) by {
      if id == [] { assert line[0] == ','; } else { assert line[0] == id[0]; }
    }
    assert TrimStart(line) == line;
    assert line[..|line| - 1] == body;
    assert !IsSpace(body[|body| - 1]) by {
      if ip == [] { assert body[|body| - 1] == ','; } else { assert body[|body| - 1] == ip[|ip| - 1]; }
    }
    assert TrimEnd(body) == body;
    assert Strip(line) == body;
    SplitFirstSeparator(id, ',', ip);
    SplitNoSeparator(ip, ',');
    assert Split(body, ',') == [id, ip];
  }

  /** `dict_of_neighbours[id] = ip` for each pair in turn. */
  function BuildMap(pairs: seq<(string, string)>): map<string, string>
    decreases |pairs|
  {
    if |pairs| == 0 then map[]
    else BuildMap(pairs[..|pairs| - 1])[pairs[|pairs| - 1].0 := pairs[|pairs| - 1].1]
  }

  /** Every id is a key, every key is an id, and each key maps to the
      address of its LAST pair: a later duplicate overwrites an earlier one. */
  lemma {:induction false} BuildMapContents(pairs: seq<(string, string)>)
    ensures forall i :: 0 <= i < |pairs| ==> pairs[i].0 in BuildMap(pairs)
    ensures forall k :: k in BuildMap(pairs) ==>
      exists i :: (0 <= i < |pairs| && pairs[i] == (k, BuildMap(pairs)[k])
        && forall j :: i < j < |pairs| ==> pairs[j].0 != k)
    decreases |pairs|
  {
    if |pairs| > 0 {
      var n := |pairs| - 1;
      var prefix := pairs[..n];
      BuildMapContents(prefix);
      var m := BuildMap(prefix);
      var m' := BuildMap(pairs);
      forall i | 0 <= i < |pairs| ensures pairs[i].0 in m' {
        if i < n { assert prefix[i] == pairs[i]; }
      }
      forall k | k in m'
        ensures exists i :: (0 <= i < |pairs| && pairs[i] == (k, m'[k])
          && forall j :: i < j < |pairs| ==> pairs[j].0 != k)
      {
        if k == pairs[n].0 {
          assert pairs[n] == (k, m'[k]);
        } else {
          var i :| 0 <= i < n && prefix[i] == (k, m[k])
            && forall j :: i < j < n ==> prefix[j].0 != k;
          assert pairs[i] == (k, m'[k]);
          forall j | i < j < |pairs| ensures pairs[j].0 != k {
            if j < n { assert prefix[j] == pairs[j]; }
          }
        }
      }
    }
  }

  /** `read_file_of_neighbours` on the lines of the file. It fails exactly
      when some line is ill-formatted, and then it reports the first such
      line; `ParseNeighboursMap` says what the map holds. */
  function ParseNeighbours(lines: seq<string>): (r: Result<map<string, string>, NeighbourError>)
    ensures r.Failure? <==> exists i :: 0 <= i < |lines| && ParseLine(lines[i]).Failure?
    ensures r.Failure? ==>
      && r.error.line < |lines|
      && ParseLine(lines[r.error.line]) == Failure(WrongFieldCount(r.error.fields))
      && forall j :: 0 <= j < r.error.line ==> ParseLine(lines[j]).Success?
  {
    var m := MapAll(lines, ParseLine);
    if m.Success? then Success(BuildMap(m.value)) else Failure(IllFormatted(m.error.0, m.error.1.fields))
  }

  /** The map built from lines that all parse, for any line parser `f`:
      every id is a key, and each key maps to the address of the LAST line
      that names it. */
  lemma MapOfLines(lines: seq<string>, f: string -> Result<(string, string), LineError>)
    requires MapAll(lines, f).Success?
    ensures forall i :: 0 <= i < |lines| ==> f(lines[i]).value.0 in BuildMap(MapAll(lines, f).value)
    ensures forall k :: k in BuildMap(MapAll(lines, f).value) ==>
      exists i :: (0 <= i < |lines| && f(lines[i]) == Success((k, BuildMap(MapAll(lines, f).value)[k]))
        && forall j :: i < j < |lines| ==> f(lines[j]).value.0 != k)
  {
    var pairs := MapAll(lines, f).value;
    BuildMapContents(pairs);
  }

  /** On success every id of the file is a key, every key is the id of some
      line, and each key maps to the address on the LAST line that names
      it: a later duplicate overwrites an earlier one. */
  lemma ParseNeighboursMap(lines: seq<string>)
    requires ParseNeighbours(lines).Success?
    ensures forall i :: 0 <= i < |lines| ==> ParseLine(lines[i]).value.0 in ParseNeighbours(lines).value
    ensures forall k :: k in ParseNeighbours(lines).value ==>
      exists i :: (0 <= i < |lines| && ParseLine(lines[i]) == Success((k, ParseNeighbours(lines).value[k]))
        && forall j :: i < j < |lines| ==> ParseLine(lines[j]).value.0 != k)
  {
    MapOfLines(lines, ParseLine);
  }

  lemma BuildMapTwo(a: string, ipA: string, b: string, ipB: string)
    ensures BuildMap([(a, ipA), (b, ipB)]) == map[a := ipA][b := ipB]
  {
    var pairs := [(a, ipA), (b, ipB)];
    assert pairs[..1] == [(a, ipA)];
    assert pairs[..1][..0] == [];
    assert BuildMap(pairs[..1]) == map[a := ipA];
  }

  /** Two written lines read back as the map that sends each id to its
      address, the second line winning when both name the same id. */
  lemma TwoLines(a: string, ipA: string, b: string, ipB: string)
    requires WellFormedPair(a, ipA) && WellFormedPair(b, ipB)
    ensures ParseNeighbours([FormatLine(a, ipA), FormatLine(b, ipB)]) == Success(map[a := ipA][b := ipB])
  {
    ParseFormatLine(a, ipA);
    ParseFormatLine(b, ipB);
    MapAllTwo(FormatLine(a, ipA), FormatLine(b, ipB), ParseLine, (a, ipA), (b, ipB));
    BuildMapTwo(a, ipA, b, ipB);
  }

  /** A line with no comma is rejected, like "gargl" in the daemon's tests. */
  lemma NoCommaRejected(line: string)
    requires ',' !in line
    ensures ParseLine(line) == Failure(WrongFieldCount(1))
  {
    CountAbsent(Strip(line), ',');
  }
}
