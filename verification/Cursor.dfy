/** The `Args` builder and reader: a buffer that `Add..` methods extend and a cursor that `Next..`
    methods advance. */
module Cursor {
  import opened Words
  import opened Wire

  /** Reading the rest of an array after `values` have been read. */
  function Prepend(values: seq<Text>, r: Read<seq<Text>>): Read<seq<Text>> {
    if r.result.Err? then r else Read(Ok(values + r.result.value), r.offset)
  }

  lemma PrependNothing(r: Read<seq<Text>>)
    ensures Prepend([], r) == r
  {
    if r.result.Ok? {
      assert [] + r.result.value == r.result.value;
    }
  }

  lemma PrependOne(values: seq<Text>, t: Text, r: Read<seq<Text>>)
    ensures Prepend(values, Prepend([t], r)) == Prepend(values + [t], r)
  {
    if r.result.Ok? {
      assert values + ([t] + r.result.value) == (values + [t]) + r.result.value;
    }
  }

  class Args {
    var data: Bytes
    var offset: nat

    constructor ()
      ensures data == [] && offset == 0
    {
      data, offset := [], 0;
    }

    constructor FromBytes(data: Bytes, offset: nat)
      ensures this.data == data && this.offset == offset
    {
      this.data, this.offset := data, offset;
    }

    method AddU32(value: u32)
      modifies this
      ensures data == old(data) + EncodeU32(value) && offset == old(offset)
    {
      data := data + LittleEndian(value, 4);
    }

    method AddU64(value: u64)
      modifies this
      ensures data == old(data) + EncodeU64(value) && offset == old(offset)
    {
      data := data + LittleEndian(value, 8);
    }

    method AddBool(value: bool)
      modifies this
      ensures data == old(data) + EncodeBool(value) && offset == old(offset)
    {
      data := data + [if value then 1 else 0];
    }

    method AddBytes(value: Bytes)
      modifies this
      ensures data == old(data) + EncodeBytes(value) && offset == old(offset)
    {
      AddU32(|value| % TWO32);
      data := data + value;
      assert data == old(data) + EncodeBytes(value);
    }

    method AddString(value: Text)
      modifies this
      ensures data == old(data) + EncodeText(value) && offset == old(offset)
    {
      var bytes := value.utf8;
      AddU32(|bytes| % TWO32);
      data := data + bytes;
      assert data == old(data) + EncodeText(value);
    }

    method AddStringArray(values: seq<Text>)
      modifies this
      ensures data == old(data) + EncodeTexts(values) && offset == old(offset)
    {
      var content: Bytes := [];
      for i := 0 to |values|
        invariant content == Content(values[..i])
      {
        var bytes := values[i].utf8;
        assert values[..i + 1][..i] == values[..i];
        content := content + LittleEndian(|bytes| % TWO32, 4);
        content := content + bytes;
      }
      assert values[..|values|] == values;
      AddU32(|content| % TWO32);
      data := data + content;
      assert data == old(data) + EncodeTexts(values);
    }

    method NextU32() returns (r: Result<u32>)
      modifies this
      ensures data == old(data)
      ensures Read(r, offset) == Wire.NextU32(old(data), old(offset))
    {
      if offset + 4 > |data| {
        return Err(OutOfRange("u32"));
      }
      var bytes := data[offset..offset + 4];
      offset := offset + 4;
      WordSizes();
      BytesOfNumber(bytes);
      return Ok(FromLittleEndian(bytes));
    }

    method NextU64() returns (r: Result<u64>)
      modifies this
      ensures data == old(data)
      ensures Read(r, offset) == Wire.NextU64(old(data), old(offset))
    {
      if offset + 8 > |data| {
        return Err(OutOfRange("u64"));
      }
      var bytes := data[offset..offset + 8];
      offset := offset + 8;
      WordSizes();
      BytesOfNumber(bytes);
      return Ok(FromLittleEndian(bytes));
    }

    method NextBool() returns (r: Result<bool>)
      modifies this
      ensures data == old(data)
      ensures Read(r, offset) == Wire.NextBool(old(data), old(offset))
    {
      if offset + 1 > |data| {
        return Err(OutOfRange("bool"));
      }
      var b := data[offset] != 0;
      offset := offset + 1;
      return Ok(b);
    }

    method NextBytes() returns (r: Result<Bytes>)
      modifies this
      ensures data == old(data)
      ensures Read(r, offset) == Wire.NextBytes(old(data), old(offset))
    {
      var length := NextU32();
      if length.Err? {
        return Err(length.error);
      }
      if offset + length.value > |data| {
        return Err(OutOfRange("bytes"));
      }
      var bytes := data[offset..offset + length.value];
      offset := offset + length.value;
      return Ok(bytes);
    }

    method NextString() returns (r: Result<Text>)
      modifies this
      ensures data == old(data)
      ensures Read(r, offset) == Wire.NextText(old(data), old(offset))
    {
      var bytes := NextBytes();
      if bytes.Err? {
        return Err(bytes.error);
      }
      if !ValidUtf8(bytes.value) {
        return Err(InvalidUtf8);
      }
      return Ok(Text(bytes.value));
    }

    method NextStringArray() returns (r: Result<seq<Text>>)
      modifies this
      ensures data == old(data)
      ensures Read(r, offset) == Wire.NextTexts(old(data), old(offset))
    {
      var total := NextU32();
      if total.Err? {
        return Err(total.error);
      }
      if offset + total.value > |data| {
        return Err(OutOfRange("string array"));
      }
      ghost var start := offset;
      var end := offset + total.value;
      var values: seq<Text> := [];
      PrependNothing(TextsFrom(data, start, end));
      while offset < end
        invariant data == old(data) && end <= |data|
        invariant TextsFrom(data, start, end) == Prepend(values, TextsFrom(data, offset, end))
        decreases |data| - offset
      {
        TextAdvances(data, offset);
        var value := NextString();
        if value.Err? {
          return Err(value.error);
        }
        PrependOne(values, value.value, TextsFrom(data, offset, end));
        values := values + [value.value];
      }
      assert values + [] == values;
      return Ok(values);
    }
  }
}
