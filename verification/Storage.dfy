// The flash the download writes to: each method is one file operation of src/ua_download.c. The power may go before
// any of them: then nothing more is written, and an append that was under way is torn.
module Storage {
  import opened Common
  import opened Journal

  class Files {
    var data: Option<seq<bv8>>
    var recs: Option<seq<Record>>
    var on: bool
    var power: nat                 // how many more file operations the power lasts
    const torn: nat                // how many bytes of an interrupted append arrive

    constructor (d: Disk, power: nat, torn: nat)
      ensures data == d.data && recs == d.recs && on && this.power == power
    {
      data, recs, on, this.power, this.torn := d.data, d.recs, true, power, torn;
    }

    method UsePower()
      requires on
      modifies this`on, this`power
      ensures on <==> old(power) >= 1
      ensures power == if on then old(power) - 1 else 0
    {
      if power == 0 {
        on := false;
      } else {
        power := power - 1;
      }
    }

    // fopen with "w+", fwrite and fclose on the record file: the file is cut before it is written.
    method SaveRecord(r: Record)
      requires on
      modifies this`recs, this`on, this`power
      ensures on <==> old(power) >= 2
      ensures power == if on then old(power) - 2 else 0
      ensures recs == if on then Some([r]) else if old(power) == 1 then Some([]) else old(recs)
    {
      UsePower();
      if on {
        recs := Some([]);
        UsePower();
        if on {
          recs := Some([r]);
        }
      }
    }

    // fwrite on a record file that was opened with "a+": it appends wherever the file position is.
    method AppendRecord(r: Record)
      requires on && recs.Some?
      modifies this`recs, this`on, this`power
      ensures on <==> old(power) >= 1
      ensures power == if on then old(power) - 1 else 0
      ensures recs == if on then Some(old(recs).value + [r]) else old(recs)
    {
      UsePower();
      if on {
        recs := Some(recs.value + [r]);
      }
    }

    method RemoveData()
      requires on
      modifies this`data, this`on, this`power
      ensures on <==> old(power) >= 1
      ensures power == if on then old(power) - 1 else 0
      ensures data == if on then None else old(data)
    {
      UsePower();
      if on {
        data := None;
      }
    }

    method TruncateData(n: nat)
      requires on
      modifies this`data, this`on, this`power
      ensures on <==> old(power) >= 1
      ensures power == if on then old(power) - 1 else 0
      ensures data == if on && old(data).Some? then Some(Truncated(old(data).value, n)) else old(data)
    {
      UsePower();
      if on && data.Some? {
        data := Some(Truncated(data.value, n));
      }
    }

    // fopen with "a" and fwrite on the data file; the file system takes the first bytes only, as many as written says.
    method AppendData(chunk: seq<bv8>, written: nat) returns (ok: bool)
      requires on && written <= |chunk|
      modifies this`data, this`on, this`power
      ensures on <==> old(power) >= 1
      ensures power == if on then old(power) - 1 else 0
      ensures on ==> data == Some(Bytes(Disk(old(data), None)) + chunk[..written])
      ensures on ==> ok == (written == |chunk|)
      ensures !on ==>
                || data == old(data)
                || exists k :: 0 <= k <= written && data == Some(Bytes(Disk(old(data), None)) + chunk[..k])
    {
      UsePower();
      if data.None? && (on || torn > 0) {
        data := Some([]);
      }
      if on {
        data := Some(data.value + chunk[..written]);
      } else if data.Some? {
        data := Some(data.value + chunk[..if torn < written then torn else written]);
      }
      ok := written == |chunk|;
    }
  }
}
