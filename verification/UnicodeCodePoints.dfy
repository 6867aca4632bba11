/**
 Which code points the replaced spaces are, and their UTF-8 encodings.
 */
module UnicodeCodePoints {
  import opened UnicodeSpaces
  import opened Texts

  newtype CodePoint = c: int | 0 <= c < 0x11_0000

  /** The code points that are replaced by a plain space. */
  predicate IsUnicodeSpace(c: CodePoint) {
    c == 0xA0 || 0x2000 <= c <= 0x200B || c in {0x202F, 0x205F, 0x2060, 0x3000, 0xFEFF}
  }

  function Byte(n: int): char
    requires 0 <= n < 256
  {
    n as char
  }

  /** UTF-8, section 3 of RFC 3629. */
  function Encoding(c: CodePoint): (bytes: string)
    ensures 1 <= |bytes| <= 4
  {
    var n := c as int;
    if n < 0x80 then [Byte(n)]
    else if n < 0x800 then [Byte(0xC0 + n / 64), Byte(0x80 + n % 64)]
    else if n < 0x1_0000 then [Byte(0xE0 + n / 4096), Byte(0x80 + n / 64 % 64), Byte(0x80 + n % 64)]
    else [Byte(0xF0 + n / 262144), Byte(0x80 + n / 4096 % 64), Byte(0x80 + n / 64 % 64), Byte(0x80 + n % 64)]
  }

  /** The bytes begin with the encoding of this code point. */
  ghost predicate Begins(s: string, c: CodePoint) { Has(s, 0, Encoding(c)) }

  lemma BeginsBytes(s: string, c: CodePoint)
    requires |s| > 2 && IsUnicodeSpace(c)
    ensures Begins(s, c)
       <==> if c == 0xA0 then s[0] == '\U{C2}' && s[1] == '\U{A0}'
            else s[0] as int == 0xE0 + c as int / 4096 && s[1] as int == 0x80 + c as int / 64 % 64
                 && s[2] as int == 0x80 + c as int % 64
  {
    if c == 0xA0 {
      assert s[0..2] == [s[0], s[1]];
    } else {
      assert s[0..3] == [s[0], s[1], s[2]];
    }
  }

  /** A text of more than two bytes starts with a Unicode space of so many bytes if and only if it begins with the
      encoding of one of the code points, of that length. */
  lemma SpaceExactly(s: string, n: nat)
    requires |s| > 2 && n > 0
    ensures SpaceLength(s) == n <==> exists c: CodePoint :: IsUnicodeSpace(c) && Begins(s, c) && |Encoding(c)| == n
  {
    hide SpaceLength, IsUnicodeSpace, Begins, Encoding;
    if SpaceLength(s) == n {
      var c := SpaceOf(s);
    }
    if exists c: CodePoint :: IsUnicodeSpace(c) && Begins(s, c) && |Encoding(c)| == n {
      var c: CodePoint :| IsUnicodeSpace(c) && Begins(s, c) && |Encoding(c)| == n;
      LengthOf(s, c);
    }
  }

  lemma LengthOf(s: string, c: CodePoint)
    requires |s| > 2 && IsUnicodeSpace(c) && Begins(s, c)
    ensures SpaceLength(s) == |Encoding(c)|
  {
    BeginsBytes(s, c);
    hide Begins, Encoding;
    EncodingLength(c);
  }

  lemma EncodingLength(c: CodePoint)
    requires IsUnicodeSpace(c)
    ensures |Encoding(c)| == if c == 0xA0 then 2 else 3
  {
  }

  lemma SpaceOf(s: string) returns (c: CodePoint)
    requires |s| > 2 && SpaceLength(s) > 0
    ensures IsUnicodeSpace(c) && Begins(s, c) && |Encoding(c)| == SpaceLength(s)
  {
    if s[0] == '\U{C2}' {
      c := 0xA0;
    } else {
      c := ((s[0] as int - 0xE0) * 4096 + (s[1] as int - 0x80) * 64 + s[2] as int - 0x80) as CodePoint;
    }
    BeginsBytes(s, c);
  }

  /** Every span that is replaced is the encoding of such a code point, with at least one more byte to come behind one
      of two bytes; and every such encoding is a span. */
  lemma SpanExactly(query: string, u: UnicodeSpace)
    ensures IsSpaceAt(query, u)
       <==> u.pos + 2 < |query| && exists c: CodePoint :: IsUnicodeSpace(c) && u.bytes == |Encoding(c)| && Has(query, u.pos, Encoding(c))
  {
    if u.pos + 2 < |query| {
      var s := query[u.pos..];
      forall c: CodePoint
        ensures Begins(s, c) <==> Has(query, u.pos, Encoding(c))
      {
        FromThere(query, u.pos, Encoding(c));
      }
      if u.bytes > 0 {
        SpaceExactly(s, u.bytes);
      }
    }
  }

  lemma FromThere(query: string, pos: nat, t: string)
    requires pos <= |query|
    ensures Has(query[pos..], 0, t) <==> Has(query, pos, t)
  {
    if pos + |t| <= |query| {
      assert query[pos..][..|t|] == query[pos..pos + |t|];
    }
  }
}
