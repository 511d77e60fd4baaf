/** A byte string that grows in place: room can be reserved behind its end and filled before it is counted in. */
module StringBuilder {
  import opened Bytes

  class StringBuilder {
    var data: array<byte>
    var len: nat

    ghost predicate Valid()
      reads this
    {
      len <= data.Length
    }

    function Contents(): (s: seq<byte>)
      requires Valid()
      reads this, data
      ensures |s| == len
    {
      data[..len]
    }

    constructor ()
      ensures Valid() && Contents() == [] && fresh(data)
    {
      data := new byte[0];
      len := 0;
    }

    /** Reserve n bytes behind the end, without counting them in; returns where they start. */
    method BeginAppend(n: nat) returns (at: nat)
      requires Valid()
      modifies this`data
      ensures Valid() && Contents() == old(Contents())
      ensures at == len && len + n <= data.Length
      ensures data == old(data) || fresh(data)
      ensures len + n <= old(data.Length) ==> data == old(data)
    {
      at := len;
      if len + n > data.Length {
        var bigger := new byte[2 * (len + n)];
        MemMove(bigger, data, 0, len);
        data := bigger;
        assert data[..len] == old(data[..len]);
      }
    }

    /** Set the length; bytes that were reserved and filled become part of the contents. */
    method Resize(n: nat)
      requires Valid()
      modifies this`data, this`len
      ensures Valid() && len == n
      ensures data == old(data) || fresh(data)
      ensures n <= old(data.Length) ==> data == old(data)
      ensures old(len) <= n ==> Contents()[..old(len)] == old(Contents())
      ensures n < old(len) ==> Contents() == old(Contents())[..n]
    {
      if n > len {
        var at := BeginAppend(n - len);
        assert data[..n][..len] == data[..len];
      }
      len := n;
    }

    method Append(s: seq<byte>)
      requires Valid()
      modifies this`data, this`len, data
      ensures Valid() && Contents() == old(Contents()) + s
      ensures data == old(data) || fresh(data)
    {
      var at := BeginAppend(|s|);
      forall i | 0 <= i < |s| { data[at + i] := s[i]; }
      len := len + |s|;
      assert Contents()[..at] == old(Contents());
    }

    method Clear()
      requires Valid()
      modifies this`len
      ensures Valid() && Contents() == []
    {
      len := 0;
    }
  }
}
