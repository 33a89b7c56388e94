/** A growing byte buffer, the part of strings.Builder the encodings use. */
module TextBuilder {
  import opened Encoding

  class Builder {
    var text: Bytes

    constructor ()
      ensures text == []
    {
      text := [];
    }

    method WriteByte(c: byte)
      modifies this
      ensures text == old(text) + [c]
    {
      text := text + [c];
    }

    method WriteString(s: Bytes)
      modifies this
      ensures text == old(text) + s
    {
      text := text + s;
    }
  }
}
