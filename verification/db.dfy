/** The key/value store of src/db/mod.rs: `process_command` inserts
    `arg[0] -> arg[1]` into the map and answers the simple string `+OK\r\n`
    (src/common/mod.rs). The `Arc<Mutex<..>>` sharing around it is not
    part of this model. */
module Db {
  import opened Wrappers
  import opened Bytes
  import opened Errors

  type Store = map<seq<byte>, seq<byte>>

  /** The `OK` constant, "+OK\r\n". */
  const OkReply: seq<byte> := [0x2B, 0x4F, 0x4B, CR, LF]

  /** The store after a command, and the reply. */
  datatype Reply = Reply(store: Store, result: Result<seq<byte>, Error>)

  /** `DB::new()` */
  function New(): (db: Store)
    ensures forall k :: k !in db
  {
    map[]
  }

  /** `DB::process_command`: the first argument is the key, the second the
      value; further arguments are not looked at. The caller must supply at
      least two, as the Rust code indexes both without a check. */
  function ProcessCommand(kv: Store, arg: seq<seq<byte>>): (r: Reply)
    requires |arg| >= 2
    ensures r.result == Ok(OkReply)
    ensures arg[0] in r.store && r.store[arg[0]] == arg[1]
    ensures r.store.Keys == kv.Keys + {arg[0]}
    ensures forall k :: k in kv && k != arg[0] ==> r.store[k] == kv[k]
  {
    Reply(kv[arg[0] := arg[1]], Ok(OkReply))
  }

  /** Only the first two arguments matter. */
  lemma ExtraArgumentsIgnored(kv: Store, arg: seq<seq<byte>>)
    requires |arg| >= 2
    ensures ProcessCommand(kv, arg) == ProcessCommand(kv, arg[..2])
  {
  }

  /** Repeating a command changes nothing more. */
  lemma ProcessCommandIdempotent(kv: Store, arg: seq<seq<byte>>)
    requires |arg| >= 2
    ensures ProcessCommand(ProcessCommand(kv, arg).store, arg) == ProcessCommand(kv, arg)
  {
  }

  /** Of two commands on the same key, the later one's value stays. */
  lemma LastWriteWins(kv: Store, a: seq<seq<byte>>, b: seq<seq<byte>>)
    requires |a| >= 2 && |b| >= 2 && a[0] == b[0]
    ensures ProcessCommand(ProcessCommand(kv, a).store, b) == ProcessCommand(kv, b)
  {
  }
}
