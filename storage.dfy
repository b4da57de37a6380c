/**
 * The collaborators every Mist component talks to but that are not Mist
 * code: the local disk and the remote storage reached through the
 * directory's RPC client.
 */
module Storage {
  import opened Common

  /** The local filesystem: a map from path to file contents. */
  class Disk {
    var files: map<string, Bytes>

    constructor (initial: map<string, Bytes>)
      ensures files == initial
    {
      files := initial;
    }
  }

  /** Where a shard lives on the network: the owning member and its data uid. */
  datatype RemoteKey = RemoteKey(member: Uid, data: Uid)

  /**
   * The directory's RPC client (`MistNetworkClient` of the `network`
   * module) seen from a data file: it stores bytes somewhere on the network
   * and hands back their key, returns them for that key while they are
   * there, and deletes them. The `network` module is not part of this
   * model, so the client is a key-value store; the directory and member
   * server it would reach are modelled in MistNetwork and MistNetworkMember,
   * whose delete answers nothing.
   */
  class NetworkClient {
    var objects: map<RemoteKey, Bytes>

    constructor (initial: map<RemoteKey, Bytes>)
      ensures objects == initial
    {
      objects := initial;
    }

    /** `StoreDataOnNetwork(data)`: `key` is the fresh pair the network chose. */
    method StoreDataOnNetwork(data: Bytes, key: RemoteKey) returns (r: RemoteKey)
      requires key !in objects
      modifies this
      ensures r == key
      ensures objects == old(objects)[key := data]
    {
      objects := objects[key := data];
      r := key;
    }

    /** `RetrieveDataOnNetwork(member, data)`: nothing when the key is unknown. */
    method RetrieveDataOnNetwork(key: RemoteKey) returns (r: Option<Bytes>)
      ensures r == if key in objects then Some(objects[key]) else None
    {
      r := if key in objects then Some(objects[key]) else None;
    }

    /**
     * `DeleteDataOnNetwork(member, data)`: the key is gone afterwards. The
     * answer is taken to be true exactly when there was something to delete;
     * the client that gives it is not part of this model.
     */
    method DeleteDataOnNetwork(key: RemoteKey) returns (ok: bool)
      modifies this
      ensures ok <==> key in old(objects)
      ensures objects == old(objects) - {key}
    {
      ok := key in objects;
      objects := objects - {key};
    }
  }

  /**
   * The directory as the client of mist.py reaches it: a payload travels as
   * base64 text and a retrieve brings that text back. The member that keeps
   * it is itself a Mist node storing the text as a data file of its own; here
   * the whole path is a key-value store of text.
   */
  class TextNetwork {
    var texts: map<RemoteKey, string>

    constructor (initial: map<RemoteKey, string>)
      ensures texts == initial
    {
      texts := initial;
    }
  }
}
