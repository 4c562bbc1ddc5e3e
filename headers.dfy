/**
  Header fields as HttpRequest.parseRequest reads them: a line is split at its
  first colon and both halves are trimmed; fields are put into a map one after
  the other, so a later field replaces an earlier one of the same name. Also
  the keep-alive rule of the HttpRequest constructor.
 */
module Headers {

  import opened Wrappers
  import opened Text

  /** HttpRequest.CONNECTION_CLOSE */
  const ConnectionClose: string := "close"

  /** line.trim().isEmpty(): the line that ends a header block. */
  predicate IsBlank(line: string) {
    Trim(line) == []
  }

  /** line.split(":", 2) has two parts exactly when the line holds a colon. */
  predicate IsField(line: string) {
    ':' in line
  }

  predicate AllFields(lines: seq<string>) {
    forall i :: 0 <= i < |lines| ==> IsField(lines[i])
  }

  function FieldName(line: string): string
    requires IsField(line)
  {
    Trim(SplitFirst(line, ':').value.0)
  }

  function FieldValue(line: string): string
    requires IsField(line)
  {
    Trim(SplitFirst(line, ':').value.1)
  }

  /** How the server writes a header line: the name, a colon, a space and the value. */
  function Field(name: string, value: string): string {
    name + ": " + value
  }

  /** A name that reads back as itself: non-empty, trimmed and free of colons. */
  predicate CleanName(name: string) {
    name != [] && ':' !in name && Trimmed(name)
  }

  /** A field written with a clean name is not blank and reads back under that
      name; a trimmed value reads back unchanged. */
  lemma FieldRoundTrip(name: string, value: string)
    requires CleanName(name)
    ensures IsField(Field(name, value)) && !IsBlank(Field(name, value))
    ensures FieldName(Field(name, value)) == name
    ensures Trimmed(value) ==> FieldValue(Field(name, value)) == value
  {
    var line := Field(name, value);
    assert line == name + [':'] + (" " + value);
    SplitFirstAt(name, ':', " " + value);
    TrimFixes(name);
    TrimShape(line);
    assert line[0] == name[0];
    if Trimmed(value) {
      if value == [] {
        TrimShape(" " + value);
      } else {
        TrimExact(" ", value, []);
        assert " " + value + [] == " " + value;
      }
    }
  }

  /** The number of lines before the first blank line, or all of them when none is blank. */
  function BlockLength(lines: seq<string>): (n: nat)
    ensures n <= |lines|
    ensures forall i :: 0 <= i < n ==> !IsBlank(lines[i])
    ensures n < |lines| ==> IsBlank(lines[n])
  {
    if lines == [] || IsBlank(lines[0]) then 0 else 1 + BlockLength(lines[1..])
  }

  /** The first blank line, or the end, is where the block stops. */
  lemma {:induction false} BlockLengthIs(lines: seq<string>, n: nat)
    requires n <= |lines|
    requires forall i :: 0 <= i < n ==> !IsBlank(lines[i])
    requires n < |lines| ==> IsBlank(lines[n])
    ensures BlockLength(lines) == n
  {
    if n > 0 {
      BlockLengthIs(lines[1..], n - 1);
    }
  }

  /** The block reaches at least past every non-blank line at its front. */
  lemma {:induction false} BlockLengthAtLeast(lines: seq<string>, n: nat)
    requires n <= |lines|
    requires forall i :: 0 <= i < n ==> !IsBlank(lines[i])
    ensures BlockLength(lines) >= n
  {
    if n > 0 {
      BlockLengthAtLeast(lines[1..], n - 1);
    }
  }

  /** Each field line as the (name, value) pair that parseRequest puts into its map. */
  function Pairs(lines: seq<string>): (ps: seq<(string, string)>)
    requires AllFields(lines)
    ensures |ps| == |lines|
    ensures forall i :: 0 <= i < |lines| ==> ps[i] == (FieldName(lines[i]), FieldValue(lines[i]))
  {
    seq(|lines|, i requires 0 <= i < |lines| => (FieldName(lines[i]), FieldValue(lines[i])))
  }

  /** HashMap.put of each pair in turn, starting from an empty map. */
  function PutAll(pairs: seq<(string, string)>): map<string, string> {
    if pairs == [] then map[]
    else
      var last := pairs[|pairs| - 1];
      PutAll(pairs[..|pairs| - 1])[last.0 := last.1]
  }

  /** The header map built from a block of field lines. */
  function HeaderMap(lines: seq<string>): map<string, string>
    requires AllFields(lines)
  {
    PutAll(Pairs(lines))
  }

  /** Reading one more field line puts its pair into the map. */
  lemma HeaderMapAppend(lines: seq<string>, line: string)
    requires AllFields(lines) && IsField(line)
    ensures AllFields(lines + [line])
    ensures HeaderMap(lines + [line]) == HeaderMap(lines)[FieldName(line) := FieldValue(line)]
  {
    var all := lines + [line];
    assert forall i :: 0 <= i < |lines| ==> all[i] == lines[i];
    assert Pairs(all)[..|all| - 1] == Pairs(lines);
  }

  /** A name is a key of the map exactly when some pair carries it. */
  lemma {:induction false} PutAllKeys(pairs: seq<(string, string)>, name: string)
    ensures name in PutAll(pairs) <==> exists i :: 0 <= i < |pairs| && pairs[i].0 == name
  {
    if pairs != [] {
      var init := pairs[..|pairs| - 1];
      PutAllKeys(init, name);
      if exists i :: 0 <= i < |init| && init[i].0 == name {
        var i :| 0 <= i < |init| && init[i].0 == name;
        assert pairs[i] == init[i];
      }
      if exists i :: 0 <= i < |pairs| && pairs[i].0 == name {
        var i :| 0 <= i < |pairs| && pairs[i].0 == name;
        if i < |init| {
          assert init[i] == pairs[i];
        }
      }
    }
  }

  /** The last pair carrying a name decides its value: a later duplicate replaces an earlier one. */
  lemma {:induction false} PutAllLastWins(pairs: seq<(string, string)>, i: nat)
    requires i < |pairs|
    requires forall j :: i < j < |pairs| ==> pairs[j].0 != pairs[i].0
    ensures pairs[i].0 in PutAll(pairs) && PutAll(pairs)[pairs[i].0] == pairs[i].1
  {
    if i < |pairs| - 1 {
      var init := pairs[..|pairs| - 1];
      assert init[i] == pairs[i];
      forall j | i < j < |init|
        ensures init[j].0 != init[i].0
      {
        assert init[j] == pairs[j];
      }
      PutAllLastWins(init, i);
    }
  }

  /** HashMap.get: the value stored under a name, or None where Java gives null. */
  function Get(headers: map<string, string>, name: string): (r: Option<string>)
    ensures r.Some? <==> name in headers
    ensures r.Some? ==> r.value == headers[name]
  {
    if name in headers then Some(headers[name]) else None
  }

  /** The HttpRequest constructor: the connection stays open unless header
      `Connection` is exactly `close` (case-sensitive name and value). */
  predicate KeepAlive(headers: map<string, string>) {
    Get(headers, "Connection") != Some(ConnectionClose)
  }
}
