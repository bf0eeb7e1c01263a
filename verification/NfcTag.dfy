/** Publishing a message on the NFC tag, as in components/board_services/board_nfc_note.cc. */
module NfcTag {
  import opened Bytes
  import opened Ndef
  import opened NdefReader

  const BLOCK := 16
  const LAST_BLOCK := 0x37
  const CAPACITY := 880

  datatype Status = Done | InvalidArgument | InvalidSize | InvalidResponse | InvalidState | TimedOut | BusFailed

  // ---------------------------------------------------------------- the tag's memory

  /** The user memory, block 1 first, with one block replaced. */
  function Replaced(memory: seq<byte>, address: int, data: seq<byte>): (m: seq<byte>)
    requires |memory| == CAPACITY && 1 <= address <= LAST_BLOCK && |data| == BLOCK
    ensures |m| == CAPACITY
  {
    memory[..BLOCK * (address - 1)] + data + memory[BLOCK * address..]
  }

  function BlockAt(memory: seq<byte>, address: int): (data: seq<byte>)
    requires |memory| == CAPACITY && 1 <= address <= LAST_BLOCK
    ensures |data| == BLOCK
  {
    memory[BLOCK * (address - 1)..BLOCK * address]
  }

  predicate Fits(message: seq<byte>)
  {
    1 <= |message| < TWO_16 && |Type2(message)| <= CAPACITY
  }

  /** The message's TLV, then zeros to the end of the memory. */
  function Image(message: seq<byte>): (image: seq<byte>)
    requires Fits(message)
    ensures |image| == CAPACITY
  {
    Type2(message) + seq(CAPACITY - |Type2(message)|, _ => 0)
  }

  /** The block that hides whatever follows it. */
  const EMPTY: seq<byte> := [3, 0, 0xfe, 0, 0, 0, 0, 0, 0, 0, 0, 0, 0, 0, 0, 0]

  lemma ReplacedAt(memory: seq<byte>, address: int, data: seq<byte>, k: int)
    requires |memory| == CAPACITY && 1 <= address <= LAST_BLOCK && |data| == BLOCK && 0 <= k < CAPACITY
    ensures Replaced(memory, address, data)[k]
         == if BLOCK * (address - 1) <= k < BLOCK * address then data[k - BLOCK * (address - 1)] else memory[k]
  {
  }

  lemma ReplacedBySame(memory: seq<byte>, address: int)
    requires |memory| == CAPACITY && 1 <= address <= LAST_BLOCK
    ensures Replaced(memory, address, BlockAt(memory, address)) == memory
  {
  }

  lemma BlockOfReplaced(memory: seq<byte>, address: int, data: seq<byte>)
    requires |memory| == CAPACITY && 1 <= address <= LAST_BLOCK && |data| == BLOCK
    ensures BlockAt(Replaced(memory, address, data), address) == data
  {
  }

  // ---------------------------------------------------------------- the device

  /**
   * One bus transaction: whether a phone's field is present, whether the driver reports success,
   * and whether a written block was stored all the same. A block is stored whole or not at all.
   */
  datatype Transaction = Transaction(field: bool, ok: bool, stored: bool)

  class Tag {
    var memory: seq<byte>
    var script: seq<Transaction>
    ghost var history: seq<seq<byte>>
    ghost var troubled: bool

    /** The history holds every content the memory has had, the present one last. */
    ghost predicate Valid()
      reads this
    {
      |memory| == CAPACITY && history != [] && history[|history| - 1] == memory
    }

    constructor (memory: seq<byte>, script: seq<Transaction>)
      requires |memory| == CAPACITY
      ensures Valid() && this.memory == memory && history == [memory] && !troubled
    {
      this.memory := memory;
      this.script := script;
      history, troubled := [memory], false;
    }

    /** A script that has run out is a bus that no longer answers. */
    method Next() returns (t: Transaction)
      modifies this`script
      ensures t == if old(script) == [] then Transaction(false, false, false) else old(script)[0]
    {
      t := Transaction(false, false, false);
      if script != [] {
        t := script[0];
        script := script[1..];
      }
    }

    method ReadBlock(address: int) returns (status: Status, data: seq<byte>)
      requires Valid()
      modifies this`script, this`troubled
      ensures status == Done ==> 1 <= address <= LAST_BLOCK && data == BlockAt(memory, address)
      ensures status == InvalidArgument <==> !(1 <= address <= LAST_BLOCK)
      ensures troubled == (old(troubled) || (status != Done && status != InvalidArgument))
    {
      data := [];
      if address < 1 || address > 0x37 {
        return InvalidArgument, data;
      }
      var t := Next();
      if !t.ok {
        troubled := true;
        return BusFailed, data;
      }
      t := Next();
      if !t.ok {
        troubled := true;
        return BusFailed, data;
      }
      return Done, BlockAt(memory, address);
    }

    method WriteBlock(address: int, data: seq<byte>) returns (status: Status)
      requires Valid() && |data| == BLOCK
      modifies this
      ensures Valid()
      ensures
        || (memory == old(memory) && history == old(history))
        || (1 <= address <= LAST_BLOCK && memory == Replaced(old(memory), address, data)
            && history == old(history) + [memory])
      ensures status == InvalidArgument <==> !(1 <= address <= LAST_BLOCK)
      ensures old(script) != [] && old(script)[0].field ==> memory == old(memory) && status != Done
      ensures 1 <= address <= LAST_BLOCK && !troubled ==>
        status == Done && memory == Replaced(old(memory), address, data)
    {
      if address < 1 || address > 0x37 {
        return InvalidArgument;
      }
      var t := Next();
      troubled := troubled || t.field || !t.ok || !t.stored;
      if t.field {
        return TimedOut;
      }
      if t.stored {
        memory := Replaced(memory, address, data);
        history := history + [memory];
      }
      return if t.ok then Done else BusFailed;
    }

    /** At most one write; success means that the block holds the data. */
    method WriteChecked(address: int, data: seq<byte>) returns (status: Status)
      requires Valid() && |data| == BLOCK
      modifies this
      ensures Valid()
      ensures
        || (memory == old(memory) && history == old(history))
        || (1 <= address <= LAST_BLOCK && memory == Replaced(old(memory), address, data)
            && history == old(history) + [memory])
      ensures status == Done ==> 1 <= address <= LAST_BLOCK && memory == Replaced(old(memory), address, data)
      ensures 1 <= address <= LAST_BLOCK && !troubled ==> status == Done
    {
      hide Replaced, BlockAt;
      var actual;
      status, actual := ReadBlock(address);
      if status == Done {
        ReplacedBySame(memory, address);
        BlockOfReplaced(memory, address, data);
        if actual != data {
          status := WriteBlock(address, data);
          if status == Done {
            status, actual := ReadBlock(address);
          }
          if status == Done && actual != data {
            status := InvalidResponse;
          }
        }
      }
    }
  }

  // ---------------------------------------------------------------- publishing

  lemma Type2OfEmpty()
    ensures Type2([]) == [3, 0, 0xfe]
  {
  }

  lemma EmptyReads(memory: seq<byte>)
    requires |memory| == CAPACITY && BlockAt(memory, 1) == EMPTY
    ensures TagMessage(memory) == Some([])
  {
    hide TagMessage, Type2;
    assert memory == EMPTY + memory[BLOCK..];
    assert EMPTY == [3, 0, 0xfe] + EMPTY[3..];
    Type2OfEmpty();
    assert memory == Type2([]) + (EMPTY[3..] + memory[BLOCK..]);
    Type2Read([], EMPTY[3..] + memory[BLOCK..]);
  }

  lemma ImageReads(message: seq<byte>)
    requires Fits(message)
    ensures TagMessage(Image(message)) == Some(message)
  {
    Type2Read(message, seq(CAPACITY - |Type2(message)|, _ => 0));
  }

  /** A reader finds the message that was there, the empty one or the whole of the new one. */
  predicate Whole(memory: seq<byte>, before: seq<byte>, message: seq<byte>)
  {
    TagMessage(memory) in {TagMessage(before), Some([]), Some(message)}
  }

  /** What the loop has done: the message is hidden and the blocks before `block` hold the image. */
  ghost predicate Hidden(memory: seq<byte>, image: seq<byte>, block: int)
    requires |memory| == |image| == CAPACITY
  {
    && BlockAt(memory, 1) == EMPTY
    && forall k :: BLOCK <= k < BLOCK * (block - 1) && k < CAPACITY ==> memory[k] == image[k]
  }

  lemma HiddenStays(memory: seq<byte>, image: seq<byte>, block: int)
    requires |memory| == |image| == CAPACITY && 2 <= block <= LAST_BLOCK && Hidden(memory, image, block)
    ensures Hidden(Replaced(memory, block, BlockAt(image, block)), image, block + 1)
  {
    var m := Replaced(memory, block, BlockAt(image, block));
    forall k | 0 <= k < BLOCK * block
      ensures m[k] == if BLOCK * (block - 1) <= k then image[k] else memory[k]
    {
      ReplacedAt(memory, block, BlockAt(image, block), k);
    }
    assert m[..BLOCK] == memory[..BLOCK];
  }

  lemma HiddenDone(memory: seq<byte>, image: seq<byte>)
    requires |memory| == |image| == CAPACITY && Hidden(memory, image, LAST_BLOCK + 1)
    ensures Replaced(memory, 1, BlockAt(image, 1)) == image
  {
    var m := Replaced(memory, 1, BlockAt(image, 1));
    forall k | 0 <= k < CAPACITY
      ensures m[k] == image[k]
    {
      ReplacedAt(memory, 1, BlockAt(image, 1), k);
    }
  }

  /** Every content since `from` reads as a whole message. */
  ghost predicate AllWhole(history: seq<seq<byte>>, from: nat, before: seq<byte>, message: seq<byte>)
  {
    forall k :: from <= k < |history| ==> Whole(history[k], before, message)
  }

  lemma HiddenFirst(memory: seq<byte>, image: seq<byte>)
    requires |memory| == |image| == CAPACITY
    ensures Hidden(Replaced(memory, 1, EMPTY), image, 2)
  {
    BlockOfReplaced(memory, 1, EMPTY);
  }

  lemma HiddenReads(memory: seq<byte>, image: seq<byte>, block: int)
    requires |memory| == |image| == CAPACITY && Hidden(memory, image, block)
    ensures TagMessage(memory) == Some([])
  {
    EmptyReads(memory);
  }

  /** The empty block first, the rest of the image behind it, the image's first block last. */
  method WriteImage(tag: Tag, image: seq<byte>, ghost message: seq<byte>) returns (status: Status)
    requires tag.Valid() && Fits(message) && image == Image(message)
    modifies tag
    ensures tag.Valid() && old(tag.history) <= tag.history
    ensures AllWhole(tag.history, |old(tag.history)|, old(tag.memory), message)
    ensures status == Done ==> tag.memory == image
    ensures status != Done ==> tag.troubled
  {
    hide TagMessage, Image, BlockAt, Replaced, Fits, Hidden;
    ghost var before, from := tag.memory, |tag.history|;
    status := tag.WriteChecked(1, EMPTY);
    HiddenFirst(before, image);
    HiddenReads(Replaced(before, 1, EMPTY), image, 2);
    if status != Done {
      return;
    }
    for block := 2 to LAST_BLOCK + 1
      invariant tag.Valid() && old(tag.history) <= tag.history && Hidden(tag.memory, image, block)
      invariant AllWhole(tag.history, from, before, message)
    {
      HiddenStays(tag.memory, image, block);
      HiddenReads(Replaced(tag.memory, block, BlockAt(image, block)), image, block + 1);
      status := tag.WriteChecked(block, BlockAt(image, block));
      if status != Done {
        return;
      }
    }
    HiddenDone(tag.memory, image);
    ImageReads(message);
    status := tag.WriteChecked(1, BlockAt(image, 1));
  }

  /**
   * `Publish`. `ready` is the outcome of taking the bus and powering the tag. A message that does
   * not fit touches nothing.
   */
  method Publish(tag: Tag, message: seq<byte>, ready: Status) returns (status: Status)
    requires tag.Valid()
    modifies tag
    ensures tag.Valid() && old(tag.history) <= tag.history
    ensures AllWhole(tag.history, |old(tag.history)|, old(tag.memory), message)
    ensures !Fits(message) ==> status == InvalidSize
    ensures !Fits(message) || ready != Done ==> status != Done && tag.history == old(tag.history)
    ensures status == Done ==> tag.memory == Image(message)
    ensures Fits(message) && ready == Done && status != Done ==> tag.troubled
  {
    hide TagMessage, Type2;
    var image := new byte[CAPACITY](_ => 0);
    var ok, length := BoardNdefType2(message, image);
    if !ok {
      return InvalidSize;
    }
    if ready != Done {
      return ready;
    }
    assert image[..] == Image(message);
    status := WriteImage(tag, image[..], message);
  }

  // ---------------------------------------------------------------- the service over any run

  // "http://192.168.4.1/"
  const SAFE_URL: seq<byte> := [0x68, 0x74, 0x74, 0x70, 0x3a, 0x2f, 0x2f, 0x31, 0x39, 0x32, 0x2e, 0x31, 0x36, 0x38,
                                0x2e, 0x34, 0x2e, 0x31, 0x2f]

  ghost predicate ExplainedAt(memory: seq<byte>, first: seq<byte>, requested: set<seq<byte>>)
  {
    || TagMessage(memory) == TagMessage(first)
    || (TagMessage(memory).Some? && TagMessage(memory).value in requested + {[]})
  }

  /** Everything the tag has ever held reads as the first message, the empty one or one that was asked for. */
  ghost predicate Explained(history: seq<seq<byte>>, requested: set<seq<byte>>)
  {
    history != [] && forall k :: 0 <= k < |history| ==> ExplainedAt(history[k], history[0], requested)
  }

  lemma StaysExplained(was: seq<seq<byte>>, now: seq<seq<byte>>, requested: set<seq<byte>>, message: seq<byte>)
    requires was <= now && Explained(was, requested)
    requires AllWhole(now, |was|, was[|was| - 1], message)
    ensures Explained(now, requested + {message})
  {
    hide TagMessage;
    forall k | 0 <= k < |now|
      ensures ExplainedAt(now[k], now[0], requested + {message})
    {
      var memory := if k < |was| then now[k] else was[|was| - 1];
      assert ExplainedAt(memory, now[0], requested);
      assert k >= |was| ==> Whole(now[k], memory, message);
    }
  }

  lemma WifiBytes(ssid: seq<byte>, password: seq<byte>, url: seq<byte>)
    requires IsNetwork(ssid, password) && IsUrl(url)
    ensures |WifiMessage(ssid, password, url)| <= 400 && Fits(WifiMessage(ssid, password, url))
  {
    hide WifiPayload, UriPayload, ShortRecord;
  }

  lemma UrlFits(url: seq<byte>)
    requires IsUrl(url)
    ensures |UriRecord(url, true)| <= 200 && Fits(UriRecord(url, true))
  {
    hide UriPayload, ShortRecord;
  }

  lemma SafeUrlFits()
    ensures IsUrl(SAFE_URL) && Fits(UriRecord(SAFE_URL, true))
  {
    hide UriPayload, ShortRecord;
    assert SAFE_URL[..7] == HTTP;
    assert SAFE_URL[4] != HTTPS[4];
    assert Type2(UriRecord(SAFE_URL, true)) != [];
  }

  class Service {
    const tag: Tag
    var lastError: Status
    ghost var requested: set<seq<byte>>

    ghost predicate Valid()
      reads this, tag
    {
      tag.Valid() && Explained(tag.history, requested)
    }

    constructor (tag: Tag)
      requires tag.Valid() && |tag.history| == 1
      ensures Valid() && this.tag == tag && requested == {}
    {
      this.tag := tag;
      lastError := InvalidState;
      requested := {};
    }

    method Offer(message: seq<byte>, ready: Status)
      requires Valid()
      modifies this, tag
      ensures Valid() && requested == old(requested) + {message} && old(tag.history) <= tag.history
      ensures lastError == Done ==> Fits(message) && tag.memory == Image(message)
      ensures Fits(message) && ready == Done && lastError != Done ==> tag.troubled
    {
      hide TagMessage, Type2, Image, Explained, AllWhole;
      lastError := Publish(tag, message, ready);
      StaysExplained(old(tag.history), tag.history, requested, message);
      requested := requested + {message};
    }

    /** `board_nfc_set_wifi`: after success a phone reads the network and the URL back. */
    method SetWifi(ssid: seq<byte>, password: seq<byte>, url: seq<byte>, ready: Status) returns (status: Status)
      requires Valid()
      modifies this, tag
      ensures Valid() && status == lastError && old(tag.history) <= tag.history
      ensures !(IsNetwork(ssid, password) && IsUrl(url)) ==>
        status == InvalidArgument && tag.history == old(tag.history) && requested == old(requested)
      ensures IsNetwork(ssid, password) && IsUrl(url) ==>
        requested == old(requested) + {WifiMessage(ssid, password, url)}
      ensures status == Done ==> TagMessage(tag.memory) == Some(WifiMessage(ssid, password, url))
      ensures IsNetwork(ssid, password) && IsUrl(url) && ready == Done && status != Done ==> tag.troubled
    {
      hide TagMessage, Type2, Image, Explained, WifiMessage, IsUrl, Fits;
      var buffer := new byte[400](_ => 0);
      var ok, length := BoardNdefWifi(ssid, password, url, buffer);
      if !ok {
        if IsNetwork(ssid, password) && IsUrl(url) {
          WifiBytes(ssid, password, url);
        }
        lastError := InvalidArgument;
        return lastError;
      }
      ghost var message := WifiMessage(ssid, password, url);
      assert buffer[..length] == message;
      WifiBytes(ssid, password, url);
      Offer(buffer[..length], ready);
      if lastError == Done {
        ImageReads(message);
      }
      return lastError;
    }

    /** `board_nfc_set_url`. */
    method SetUrl(url: seq<byte>, ready: Status) returns (status: Status)
      requires Valid()
      modifies this, tag
      ensures Valid() && status == lastError && old(tag.history) <= tag.history
      ensures !IsUrl(url) ==>
        status == InvalidArgument && tag.history == old(tag.history) && requested == old(requested)
      ensures IsUrl(url) ==> requested == old(requested) + {UriRecord(url, true)}
      ensures status == Done ==> Fits(UriRecord(url, true)) && tag.memory == Image(UriRecord(url, true))
      ensures status == Done ==> TagMessage(tag.memory) == Some(UriRecord(url, true))
      ensures IsUrl(url) && ready == Done && status != Done ==> tag.troubled
    {
      hide TagMessage, Type2, Image, Explained, UriRecord, IsUrl, Fits;
      var buffer := new byte[200](_ => 0);
      var ok, length := BoardNdefUri(url, buffer);
      if !ok {
        if IsUrl(url) {
          UrlFits(url);
        }
        lastError := InvalidArgument;
        return lastError;
      }
      UrlFits(url);
      assert buffer[..length] == UriRecord(url, true);
      Offer(buffer[..length], ready);
      if lastError == Done {
        ImageReads(UriRecord(url, true));
      }
      return lastError;
    }

    /**
     * `board_nfc_stop`: up to three attempts to put the safe URL in place of the message. When it
     * reports success nothing else is left in the memory, the last message's key included.
     */
    method Stop(ready: seq<Status>) returns (powered: bool)
      requires Valid() && |ready| == 3
      modifies this, tag
      ensures Valid() && old(tag.history) <= tag.history
      ensures powered <==> lastError != Done
      ensures requested == old(requested) + {UriRecord(SAFE_URL, true)}
      ensures !powered ==> tag.memory == Image(UriRecord(SAFE_URL, true))
      ensures powered ==> tag.troubled || exists k :: 0 <= k < 3 && ready[k] != Done
    {
      hide TagMessage, Type2, Image, Explained, UriRecord, IsUrl;
      SafeUrlFits();
      var attempt := 0;
      var trying := true;
      while attempt < 3 && trying
        invariant Valid() && 0 <= attempt <= 3 && old(tag.history) <= tag.history
        invariant attempt > 0 && lastError == Done ==> tag.memory == Image(UriRecord(SAFE_URL, true))
        invariant attempt == 0 ==> trying
        invariant attempt > 0 && lastError != Done ==> tag.troubled || exists k :: 0 <= k < 3 && ready[k] != Done
        invariant requested == if attempt == 0 then old(requested) else old(requested) + {UriRecord(SAFE_URL, true)}
      {
        var status := SetUrl(SAFE_URL, ready[attempt]);
        trying := status != Done && lastError == TimedOut;
        attempt := attempt + 1;
      }
      powered := lastError != Done;
    }
  }
}
