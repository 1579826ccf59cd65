/** Reading the server's text response (ztp_manifest.c): one pass over its records. */
module ZtpResponse {
  import opened Common
  import opened ZtpText
  import Rfc3339

  datatype Status = Unknown | Accepted | Pending | Rejected

  datatype Response = Response(
    status: Status, reason: string, retryAfter: nat, serverTime: int, manifest: string, encrypted: bool)

  function StatusOf(v: string): Status {
    if v == "accepted" then Accepted
    else if v == "pending" then Pending
    else if v == "rejected" then Rejected
    else Unknown
  }

  /** The last record of a key whose value can be read. */
  function LastRead<T>(kvs: seq<Kv>, key: string, read: string -> Option<T>): Option<T>
    decreases |kvs|
  {
    if kvs == [] then None
    else
      var kv := kvs[|kvs| - 1];
      if kv.key == key && read(kv.val).Some? then read(kv.val)
      else LastRead(kvs[..|kvs| - 1], key, read)
  }

  predicate MarksEncrypted(kv: Kv) { |kv.key| > 10 && kv.key[..10] == "encrypted." }

  ghost function Meaning(kvs: seq<Kv>): Response {
    Response(
      match Last(kvs, "status") { case Some(v) => StatusOf(v) case None => Unknown },
      Last(kvs, "reason").GetOr(""),
      LastRead(kvs, "retry_after", Rfc3339.Uint).GetOr(0),
      LastRead(kvs, "server_time", Rfc3339.Parse).GetOr(0),
      Last(kvs, "manifest.payload").GetOr(""),
      exists i :: 0 <= i < |kvs| && MarksEncrypted(kvs[i]))
  }

  lemma MeaningSnoc(kvs: seq<Kv>, kv: Kv)
    ensures var r := Meaning(kvs);
      Meaning(kvs + [kv])
      == if kv.key == "status" then r.(status := StatusOf(kv.val))
         else if kv.key == "reason" then r.(reason := kv.val)
         else if kv.key == "retry_after" then r.(retryAfter := Rfc3339.Uint(kv.val).GetOr(r.retryAfter))
         else if kv.key == "server_time" then r.(serverTime := Rfc3339.Parse(kv.val).GetOr(r.serverTime))
         else if kv.key == "manifest.payload" then r.(manifest := kv.val)
         else if MarksEncrypted(kv) then r.(encrypted := true)
         else r
  {
    hide Rfc3339.Uint, Rfc3339.Parse, Last;
    var all := kvs + [kv];
    LastSnoc(kvs, kv, "status");
    LastSnoc(kvs, kv, "reason");
    LastSnoc(kvs, kv, "manifest.payload");
    assert all[..|kvs|] == kvs && all[|kvs|] == kv;
    assert LastRead(all, "retry_after", Rfc3339.Uint)
        == if kv.key == "retry_after" && Rfc3339.Uint(kv.val).Some? then Rfc3339.Uint(kv.val)
           else LastRead(kvs, "retry_after", Rfc3339.Uint);
    assert LastRead(all, "server_time", Rfc3339.Parse)
        == if kv.key == "server_time" && Rfc3339.Parse(kv.val).Some? then Rfc3339.Parse(kv.val)
           else LastRead(kvs, "server_time", Rfc3339.Parse);
    Marks(kvs, kv);
  }

  lemma Marks(kvs: seq<Kv>, kv: Kv)
    ensures (exists i :: 0 <= i < |kvs + [kv]| && MarksEncrypted((kvs + [kv])[i]))
       <==> (exists i :: 0 <= i < |kvs| && MarksEncrypted(kvs[i])) || MarksEncrypted(kv)
    ensures MarksEncrypted(kv) ==>
        kv.key !in ["status", "reason", "retry_after", "server_time", "manifest.payload", "protocol_version"]
  {
    var all := kvs + [kv];
    assert all[|kvs|] == kv;
    if i :| 0 <= i < |kvs| && MarksEncrypted(kvs[i]) {
      assert MarksEncrypted(all[i]);
    }
    assert MarksEncrypted(kv) ==> kv.key[0] == 'e';
  }

  /** ztp_response_parse: nothing without protocol version 1 and a known status. */
  method ResponseParse(buf: string) returns (r: Option<Response>)
    ensures r == if Last(Records(buf), "protocol_version") == Some("1") && !Meaning(Records(buf)).status.Unknown?
                 then Some(Meaning(Records(buf))) else None
  {
    hide Records, Last, Meaning, MarksEncrypted, Rfc3339.Uint, Rfc3339.Parse, LastRead;
    var cur, versionOk, out := 0, false, Response(Unknown, "", 0, 0, "", false);
    ghost var seen: seq<Kv> := [];
    assert buf[0..] == buf;
    MeaningOfNothing();
    LastEmpty("protocol_version");
    while true
      invariant cur <= |buf|
      invariant Records(buf) == seen + Records(buf[cur..])
      invariant versionOk == (Last(seen, "protocol_version") == Some("1"))
      invariant out == Meaning(seen)
      decreases |buf| - cur
    {
      var next;
      cur, next := KvNext(buf, cur);
      if next.None? { break; }
      var kv := next.value;
      MeaningSnoc(seen, kv);
      Marks(seen, kv);
      LastSnoc(seen, kv, "protocol_version");
      if kv.key == "protocol_version" {
        versionOk := kv.val == "1";
      } else if kv.key == "status" {
        out := out.(status := StatusOf(kv.val));
      } else if kv.key == "reason" {
        out := out.(reason := kv.val);
      } else if kv.key == "retry_after" {
        var n := Rfc3339.ParseUint(kv.val);
        if n.Some? { out := out.(retryAfter := n.value); }
      } else if kv.key == "server_time" {
        var t := Rfc3339.Parse(kv.val);
        if t.Some? { out := out.(serverTime := t.value); }
      } else if kv.key == "manifest.payload" {
        out := out.(manifest := kv.val);
      } else if MarksEncrypted(kv) {
        out := out.(encrypted := true);
      }
      seen := seen + [kv];
    }
    assert seen + [] == seen;
    if !versionOk || out.status.Unknown? { return None; }
    r := Some(out);
  }

  lemma MeaningOfNothing()
    ensures Meaning([]) == Response(Unknown, "", 0, 0, "", false)
  {
  }
}
