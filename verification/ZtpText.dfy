/** The text formats of the ZTP exchange (ztp_manifest.c, ztp_apply.c): lines,
    key=value records, manifest modules and INI entries. */
module ZtpText {
  import opened Common

  // ----- lines -----

  /** Where a character first occurs; the length when it does not. */
  function IndexOf(s: string, c: char): (i: nat)
    ensures i <= |s| && (i < |s| ==> s[i] == c)
    ensures forall k :: 0 <= k < i ==> s[k] != c
  {
    if s == "" then 0
    else if s[0] == c then 0
    else 1 + IndexOf(s[1..], c)
  }

  lemma IndexOfIs(s: string, c: char, i: nat)
    requires i <= |s| && (i < |s| ==> s[i] == c) && forall k :: 0 <= k < i ==> s[k] != c
    ensures IndexOf(s, c) == i
  {
  }

  /** memchr over buf[from..to]. */
  method MemChr(buf: string, c: char, from: nat, to: nat) returns (i: nat)
    requires from <= to <= |buf|
    ensures i == from + IndexOf(buf[from..to], c)
  {
    i := from;
    while i < to && buf[i] != c
      invariant from <= i <= to
      invariant forall k :: from <= k < i ==> buf[k] != c
    {
      i := i + 1;
    }
    IndexOfIs(buf[from..to], c, i - from);
  }

  function Rest(s: string): (r: string)
    requires s != ""
    ensures |r| < |s|
  {
    var i := IndexOf(s, '\n');
    if i < |s| then s[i + 1..] else ""
  }

  function Lines(s: string): seq<string>
    decreases |s|
  {
    if s == "" then [] else [s[..IndexOf(s, '\n')]] + Lines(Rest(s))
  }

  function Join(lines: seq<string>): string {
    if lines == [] then "" else lines[0] + "\n" + Join(lines[1..])
  }

  /** Lines is the inverse of writing lines one after the other. */
  lemma {:induction false} LinesOfJoin(lines: seq<string>)
    requires forall i :: 0 <= i < |lines| ==> '\n' !in lines[i]
    ensures Lines(Join(lines)) == lines
  {
    if lines != [] {
      LinesOfJoin(lines[1..]);
      var s, l := Join(lines), lines[0];
      IndexOfIs(s, '\n', |l|);
      assert s[..|l|] == l && s[|l| + 1..] == Join(lines[1..]);
    }
  }

  /** And nothing is lost the other way: only a last newline can be added. */
  lemma {:induction false} JoinOfLines(s: string)
    ensures Join(Lines(s)) == (if s == "" || s[|s| - 1] == '\n' then s else s + "\n")
    decreases |s|
  {
    hide IndexOf, Lines, Rest, Join;
    if s == "" {
      NoLines();
    } else {
      var l, rest := s[..IndexOf(s, '\n')], Rest(s);
      LinesStep(s);
      LineSplit(s);
      JoinOfLines(rest);
      JoinStep(l, Lines(rest));
      if IndexOf(s, '\n') == |s| {
        NoLines();
      } else if rest != "" && rest[|rest| - 1] != '\n' {
        assert l + "\n" + (rest + "\n") == s + "\n";
      }
    }
  }

  lemma NoLines()
    ensures Lines("") == [] && Join([]) == ""
  {
  }

  lemma LinesStep(s: string)
    requires s != ""
    ensures Lines(s) == [s[..IndexOf(s, '\n')]] + Lines(Rest(s))
  {
  }

  lemma SplitAt(s: string, i: nat, c: char)
    requires i < |s| && s[i] == c
    ensures s == s[..i] + [c] + s[i + 1..]
  {
  }

  lemma LineSplit(s: string)
    requires s != ""
    ensures var i := IndexOf(s, '\n');
      if i == |s| then s[..i] == s && Rest(s) == "" && s[|s| - 1] != '\n'
      else s == s[..i] + "\n" + Rest(s)
  {
    hide IndexOf;
    var i := IndexOf(s, '\n');
    if i < |s| { SplitAt(s, i, '\n'); }
  }

  lemma JoinStep(l: string, ls: seq<string>)
    ensures Join([l] + ls) == l + "\n" + Join(ls)
  {
  }

  lemma {:induction false} LinesAreLines(s: string, i: nat)
    requires i < |Lines(s)|
    ensures '\n' !in Lines(s)[i]
    decreases |s|
  {
    if i > 0 { LinesAreLines(Rest(s), i - 1); }
  }

  /** The lines of a text are the one list without newlines that writes it back. */
  lemma LinesExactly(s: string, ls: seq<string>)
    ensures Lines(s) == ls
       <==> && (forall i :: 0 <= i < |ls| ==> '\n' !in ls[i])
            && Join(ls) == (if s == "" || s[|s| - 1] == '\n' then s else s + "\n")
  {
    hide Lines, Join;
    JoinOfLines(s);
    forall i | 0 <= i < |Lines(s)|
      ensures '\n' !in Lines(s)[i]
    {
      LinesAreLines(s, i);
    }
    LinesOfJoin(Lines(s));
    if forall i :: 0 <= i < |ls| ==> '\n' !in ls[i] { LinesOfJoin(ls); }
  }

  // ----- key=value records -----

  datatype Kv = Kv(key: string, val: string)

  /** One trailing carriage return is not part of the line. */
  function StripCr(line: string): string {
    if line != "" && line[|line| - 1] == '\r' then line[..|line| - 1] else line
  }

  function KvOf(line: string): Option<Kv> {
    var l := StripCr(line);
    var i := IndexOf(l, '=');
    if i < |l| then Some(Kv(l[..i], l[i + 1..])) else None
  }

  /** A record is a line split at its first '='. */
  lemma KvOfIs(line: string, kv: Kv)
    ensures KvOf(line) == Some(kv) <==> StripCr(line) == kv.key + "=" + kv.val && '=' !in kv.key
  {
    var l := StripCr(line);
    if l == kv.key + "=" + kv.val && '=' !in kv.key {
      IndexOfIs(l, '=', |kv.key|);
      assert l[..|kv.key|] == kv.key && l[|kv.key| + 1..] == kv.val;
    }
    if KvOf(line) == Some(kv) {
      assert l == l[..IndexOf(l, '=')] + "=" + l[IndexOf(l, '=') + 1..];
    }
  }

  function RecordsOf(lines: seq<string>): seq<Kv> {
    if lines == [] then []
    else (if KvOf(lines[0]).Some? then [KvOf(lines[0]).value] else []) + RecordsOf(lines[1..])
  }

  /** The records of a text: its lines that hold an '=', in order. */
  function Records(s: string): seq<Kv> { RecordsOf(Lines(s)) }

  function LinesFor(kvs: seq<Kv>): (r: seq<string>)
    ensures |r| == |kvs| && forall i :: 0 <= i < |r| ==> r[i] == kvs[i].key + "=" + kvs[i].val
  {
    seq(|kvs|, i requires 0 <= i < |kvs| => kvs[i].key + "=" + kvs[i].val)
  }

  ghost predicate Writable(kv: Kv) {
    && '=' !in kv.key && '\n' !in kv.key && '\n' !in kv.val
    && (kv.val == "" || kv.val[|kv.val| - 1] != '\r')
  }

  /** Written records read back as they are. */
  lemma RecordsRoundTrip(kvs: seq<Kv>)
    requires forall i :: 0 <= i < |kvs| ==> Writable(kvs[i])
    ensures Records(Join(LinesFor(kvs))) == kvs
  {
    forall i | 0 <= i < |kvs|
      ensures '\n' !in LinesFor(kvs)[i]
    {
      assert Writable(kvs[i]);
    }
    LinesOfJoin(LinesFor(kvs));
    RecordsOfLines(kvs);
  }

  lemma {:induction false} RecordsOfLines(kvs: seq<Kv>)
    requires forall i :: 0 <= i < |kvs| ==> Writable(kvs[i])
    ensures RecordsOf(LinesFor(kvs)) == kvs
  {
    if kvs != [] {
      var l := kvs[0].key + "=" + kvs[0].val;
      assert Writable(kvs[0]);
      assert StripCr(l) == l;
      KvOfIs(l, kvs[0]);
      assert LinesFor(kvs)[1..] == LinesFor(kvs[1..]);
      RecordsOfLines(kvs[1..]);
    }
  }

  lemma RecordsStep(s: string)
    requires s != ""
    ensures Records(s)
         == (if KvOf(s[..IndexOf(s, '\n')]).Some? then [KvOf(s[..IndexOf(s, '\n')]).value] else [])
            + Records(Rest(s))
  {
  }

  /** The line at a cursor, without its end, and the next cursor. */
  method NextLine(buf: string, cur: nat) returns (line: string, next: nat)
    requires cur < |buf|
    ensures cur < next <= |buf|
    ensures line == StripCr(buf[cur..][..IndexOf(buf[cur..], '\n')])
    ensures buf[next..] == Rest(buf[cur..])
  {
    hide IndexOf;
    var nl := MemChr(buf, '\n', cur, |buf|);
    assert buf[cur..|buf|] == buf[cur..];
    var stop := nl;
    next := if nl < |buf| then nl + 1 else |buf|;
    assert buf[cur..][..IndexOf(buf[cur..], '\n')] == buf[cur..nl];
    if stop > cur && buf[stop - 1] == '\r' { stop := stop - 1; }
    line := buf[cur..stop];
    assert buf[cur..nl][..stop - cur] == line;
  }

  method KvNext(buf: string, cur: nat) returns (next: nat, kv: Option<Kv>)
    requires cur <= |buf|
    ensures cur <= next <= |buf|
    ensures kv.Some? ==> cur < next && Records(buf[cur..]) == [kv.value] + Records(buf[next..])
    ensures kv.None? ==> next == |buf| && Records(buf[cur..]) == []
  {
    next := cur;
    while next < |buf|
      invariant cur <= next <= |buf|
      invariant Records(buf[cur..]) == Records(buf[next..])
    {
      var line;
      RecordsStep(buf[next..]);
      ghost var raw := buf[next..][..IndexOf(buf[next..], '\n')];
      line, next := NextLine(buf, next);
      var eq := MemChr(line, '=', 0, |line|);
      assert line[0..|line|] == line;
      if eq < |line| {
        assert KvOf(raw) == Some(Kv(line[..eq], line[eq + 1..]));
        return next, Some(Kv(line[..eq], line[eq + 1..]));
      }
      assert KvOf(raw) == None;
    }
    assert buf[next..] == "";
    kv := None;
  }

  // ----- manifest -----

  /** The value of the last record with a key. */
  function Last(kvs: seq<Kv>, key: string): Option<string>
    decreases |kvs|
  {
    if kvs == [] then None
    else if kvs[|kvs| - 1].key == key then Some(kvs[|kvs| - 1].val)
    else Last(kvs[..|kvs| - 1], key)
  }

  lemma LastSnoc(kvs: seq<Kv>, kv: Kv, key: string)
    ensures Last(kvs + [kv], key) == if kv.key == key then Some(kv.val) else Last(kvs, key)
  {
    assert (kvs + [kv])[..|kvs|] == kvs;
  }

  /** The header counts wherever its records stand; the last of each key counts. */
  method ManifestHeader(buf: string) returns (deviceId: string, versionOk: bool)
    ensures versionOk == (Last(Records(buf), "protocol_version") == Some("1"))
    ensures deviceId == Last(Records(buf), "device_id").GetOr("")
  {
    hide Records, Last;
    deviceId, versionOk := "", false;
    var cur := 0;
    ghost var seen: seq<Kv> := [];
    assert buf[0..] == buf;
    LastEmpty("protocol_version");
    LastEmpty("device_id");
    while true
      invariant cur <= |buf|
      invariant Records(buf) == seen + Records(buf[cur..])
      invariant versionOk == (Last(seen, "protocol_version") == Some("1"))
      invariant deviceId == Last(seen, "device_id").GetOr("")
      decreases |buf| - cur
    {
      var kv;
      cur, kv := KvNext(buf, cur);
      if kv.None? {
        assert seen + [] == seen;
        return;
      }
      LastSnoc(seen, kv.value, "protocol_version");
      LastSnoc(seen, kv.value, "device_id");
      seen := seen + [kv.value];
      if kv.value.key == "device_id" {
        deviceId := kv.value.val;
      } else if kv.value.key == "protocol_version" {
        versionOk := kv.value.val == "1";
      }
    }
  }

  lemma LastEmpty(key: string)
    ensures Last([], key) == None
  {
  }

  /** The fields of a value: the runs of characters between spaces. */
  function Fields(s: string): seq<string>
    decreases |s|
  {
    if s == "" then []
    else if s[0] == ' ' then Fields(s[1..])
    else [s[..IndexOf(s, ' ')]] + Fields(s[IndexOf(s, ' ')..])
  }

  method NextField(s: string) returns (field: Option<string>, rest: string)
    ensures field.None? ==> Fields(s) == []
    ensures field.Some? ==> Fields(s) == [field.value] + Fields(rest)
  {
    var i := 0;
    while i < |s| && s[i] == ' '
      invariant i <= |s| && Fields(s[i..]) == Fields(s)
    {
      assert s[i..][1..] == s[i + 1..];
      i := i + 1;
    }
    rest := s[i..];
    if rest == "" { return None, rest; }
    var n := MemChr(rest, ' ', 0, |rest|);
    assert rest[0..|rest|] == rest;
    field, rest := Some(rest[..n]), rest[n..];
  }

  datatype Module =
    | Clear(kind: string, payload: string)
    | Sealed(kind: string, format: string, eph: string, nonce: string, ciphertext: string)

  datatype ModuleLine = Malformed | Good(m: Module)

  /** What a record is to the module loop; most are nothing. Fields past the last
      one a module needs are ignored. */
  function ModuleOf(kv: Kv): Option<ModuleLine> {
    var f := Fields(kv.val);
    if kv.key == "module" then
      Some(if |f| >= 2 then Good(Clear(f[0], f[1])) else Malformed)
    else if kv.key == "module-sealed" then
      Some(if |f| >= 5 then Good(Sealed(f[0], f[1], f[2], f[3], f[4])) else Malformed)
    else None
  }

  function ModulesOf(kvs: seq<Kv>): seq<ModuleLine> {
    if kvs == [] then []
    else (if ModuleOf(kvs[0]).Some? then [ModuleOf(kvs[0]).value] else []) + ModulesOf(kvs[1..])
  }

  method ParseModule(kv: Kv) returns (m: Option<ModuleLine>)
    ensures m == ModuleOf(kv)
  {
    var want := if kv.key == "module" then 2 else if kv.key == "module-sealed" then 5 else 0;
    if want == 0 { return None; }
    var fields: seq<string>, rest := [], kv.val;
    while |fields| < want
      invariant |fields| <= want && Fields(kv.val) == fields + Fields(rest)
    {
      var f;
      f, rest := NextField(rest);
      if f.None? { return Some(Malformed); }
      fields := fields + [f.value];
    }
    m := Some(Good(if want == 2 then Clear(fields[0], fields[1])
                   else Sealed(fields[0], fields[1], fields[2], fields[3], fields[4])));
  }

  method NextModule(buf: string, cur: nat) returns (next: nat, m: Option<ModuleLine>)
    requires cur <= |buf|
    ensures cur <= next <= |buf|
    ensures m.None? ==> ModulesOf(Records(buf[cur..])) == []
    ensures m.Some? ==>
        cur < next && ModulesOf(Records(buf[cur..])) == [m.value] + ModulesOf(Records(buf[next..]))
  {
    next := cur;
    while true
      invariant cur <= next <= |buf|
      invariant ModulesOf(Records(buf[cur..])) == ModulesOf(Records(buf[next..]))
      decreases |buf| - next
    {
      var kv;
      ghost var at := next;
      next, kv := KvNext(buf, next);
      if kv.None? { return next, None; }
      assert ([kv.value] + Records(buf[next..]))[1..] == Records(buf[next..]);
      m := ParseModule(kv.value);
      if m.Some? { return; }
    }
  }

  // ----- INI -----

  datatype Entry = Section(name: string) | Pair(kv: Kv)

  function EntryOf(line: string): Option<Entry> {
    var l := StripCr(line);
    if l != "" && l[0] == '[' && l[|l| - 1] == ']' then Some(Section(l[1..|l| - 1]))
    else if KvOf(line).Some? then Some(Pair(KvOf(line).value))
    else None
  }

  function EntriesOf(lines: seq<string>): seq<Entry> {
    if lines == [] then []
    else (if EntryOf(lines[0]).Some? then [EntryOf(lines[0]).value] else []) + EntriesOf(lines[1..])
  }

  function Entries(s: string): seq<Entry> { EntriesOf(Lines(s)) }

  lemma EntriesStep(s: string)
    requires s != ""
    ensures Entries(s)
         == (if EntryOf(s[..IndexOf(s, '\n')]).Some? then [EntryOf(s[..IndexOf(s, '\n')]).value] else [])
            + Entries(Rest(s))
  {
  }

  /** What one line of an INI body is. */
  method LineEntry(line: string, ghost raw: string) returns (e: Option<Entry>)
    requires line == StripCr(raw)
    ensures e == EntryOf(raw)
  {
    if |line| > 0 && line[0] == '[' && line[|line| - 1] == ']' {
      return Some(Section(line[1..|line| - 1]));
    }
    var eq := MemChr(line, '=', 0, |line|);
    assert line[0..|line|] == line;
    e := if eq < |line| then Some(Pair(Kv(line[..eq], line[eq + 1..]))) else None;
  }

  /** One step of the INI walk. */
  method NextEntry(buf: string, cur: nat) returns (next: nat, e: Option<Entry>)
    requires cur <= |buf|
    ensures cur <= next <= |buf|
    ensures e.Some? ==> cur < next && Entries(buf[cur..]) == [e.value] + Entries(buf[next..])
    ensures e.None? ==> next == |buf| && Entries(buf[cur..]) == []
  {
    hide Entries, EntryOf, StripCr, IndexOf, Rest;
    next := cur;
    while next < |buf|
      invariant cur <= next <= |buf|
      invariant Entries(buf[cur..]) == Entries(buf[next..])
    {
      var line;
      EntriesStep(buf[next..]);
      ghost var raw := buf[next..][..IndexOf(buf[next..], '\n')];
      line, next := NextLine(buf, next);
      e := LineEntry(line, raw);
      if e.Some? { return; }
    }
    assert buf[next..] == "";
    NoEntries();
    e := None;
  }

  lemma NoEntries()
    ensures Entries("") == []
  {
  }
}
