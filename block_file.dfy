/**
 * The view of a parsed block file that the version module relies on:
 * a list of named blocks, each holding key/value pairs.
 */
module BlockFile {
  import opened Wrappers

  /** One block of the configuration file: its name and its values by key. */
  datatype Block = Block(name: string, values: map<string, string>)

  /** The value stored under `key`, or None where the library reports a missing key. */
  function GetValue(b: Block, key: string): (r: Option<string>)
    ensures r.Some? <==> key in b.values
    ensures r.Some? ==> r.value == b.values[key]
  {
    if key in b.values then Some(b.values[key]) else None
  }

  /**
   * The index of the first block called `name`, or |blocks| when there is none.
   * This is where a front-to-back scan that stops at the first match stops.
   */
  function FirstNamed(blocks: seq<Block>, name: string): (k: nat)
    ensures k <= |blocks|
    ensures forall j :: 0 <= j < k ==> blocks[j].name != name
    ensures k < |blocks| ==> blocks[k].name == name
  {
    if blocks == [] then 0
    else if blocks[0].name == name then 0
    else 1 + FirstNamed(blocks[1..], name)
  }

  /** A scan finds a block exactly when some block carries the name. */
  lemma FirstNamedFound(blocks: seq<Block>, name: string)
    ensures FirstNamed(blocks, name) < |blocks| <==> exists i :: 0 <= i < |blocks| && blocks[i].name == name
  {
  }

  /** Blocks after the first match never change where the scan stops. */
  lemma FirstNamedIgnoresSuffix(blocks: seq<Block>, rest: seq<Block>, name: string)
    requires FirstNamed(blocks, name) < |blocks|
    ensures FirstNamed(blocks + rest, name) == FirstNamed(blocks, name)
  {
    var k, k' := FirstNamed(blocks, name), FirstNamed(blocks + rest, name);
    assert (blocks + rest)[k] == blocks[k];
  }

  /** Any number of leading blocks with other names are skipped by the scan. */
  lemma {:induction false} FirstNamedSkipsPrefix(prefix: seq<Block>, blocks: seq<Block>, name: string)
    requires forall i :: 0 <= i < |prefix| ==> prefix[i].name != name
    ensures FirstNamed(prefix + blocks, name) == |prefix| + FirstNamed(blocks, name)
  {
    if prefix != [] {
      FirstNamedSkipsPrefix(prefix[1..], blocks, name);
      assert (prefix + blocks)[1..] == prefix[1..] + blocks;
    } else {
      assert prefix + blocks == blocks;
    }
  }

  /** A leading block with another name is skipped by the scan. */
  lemma FirstNamedSkips(b: Block, blocks: seq<Block>, name: string)
    requires b.name != name
    ensures FirstNamed([b] + blocks, name) == 1 + FirstNamed(blocks, name)
  {
    FirstNamedSkipsPrefix([b], blocks, name);
  }
}
