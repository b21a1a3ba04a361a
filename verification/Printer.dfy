/** The printer: text goes into a growable byte buffer that every step first makes large enough. */
module Printer {
  import opened Bytes
  import opened JsonValue
  import opened Rendering
  import opened Tree

  class PrintBuffer {
    var buffer: array<byte>
    var length: nat
    var offset: nat
    var depth: nat
    const noalloc: bool
    const format: bool

    constructor (buffer: array<byte>, noalloc: bool, format: bool)
      requires buffer.Length <= INT_MAX
      ensures this.buffer == buffer && this.noalloc == noalloc && this.format == format
      ensures Valid() && offset == 0 && depth == 0
    {
      this.buffer, this.noalloc, this.format := buffer, noalloc, format;
      length, offset, depth := buffer.Length, 0, 0;
    }

    ghost predicate Valid()
      reads this`length, this`buffer, this`offset
    {
      length == buffer.Length <= INT_MAX && offset <= length && (length > 0 ==> offset < length)
    }

    /** How many bytes the buffer can ever hold. */
    ghost function Limit(): int
      reads this`length
    {
      if noalloc then length else INT_MAX
    }

    /** The text printed so far. */
    ghost function Text(): seq<byte>
      requires Valid()
      reads this`length, this`buffer, this`offset, buffer
    {
      buffer[..offset]
    }

    /** `t` and a NUL follow the text `p`; the offset has not caught up with all of it yet. */
    ghost predicate Pending(p: seq<byte>, t: CString)
      reads this`length, this`buffer, this`offset, buffer
    {
      && |p| <= offset <= |p| + |t| < length == buffer.Length
      && buffer[..|p| + |t|] == p + t
      && buffer[|p| + |t|] == NUL
    }

    /** `realloc`: the old contents survive. */
    method Reallocate(size: nat)
      requires Valid() && length <= size <= INT_MAX
      modifies this`buffer, this`length
      ensures fresh(buffer) && length == size == buffer.Length
      ensures buffer[..old(length)] == old(buffer[..])
    {
      var larger := new byte[size];
      var source, n := buffer, length;
      var i := 0;
      while i < n
        invariant 0 <= i <= n && n == source.Length
        invariant forall j :: 0 <= j < i ==> larger[j] == source[j]
        invariant source[..] == old(source[..])
        modifies larger
      {
        larger[i] := source[i];
        i := i + 1;
      }
      assert larger[..n] == source[..];
      buffer, length := larger, size;
    }

    /** `ensure`: room for `needed` more bytes and one beyond; it fails exactly when the limit is in the way. */
    method Ensure(needed: nat) returns (ok: bool)
      requires Valid()
      modifies this`buffer, this`length
      ensures Valid() && Limit() == old(Limit())
      ensures ok <==> offset + needed + 1 <= Limit()
      ensures ok ==> offset + needed + 1 <= length && Text() == old(Text())
      ensures buffer == old(buffer) || fresh(buffer)
      ensures noalloc ==> buffer == old(buffer)
    {
      if length > 0 && offset >= length {
        return false;
      }
      if needed > INT_MAX {
        return false;
      }
      var total := needed + offset + 1;
      if total <= length {
        return true;
      }
      if noalloc {
        return false;
      }
      var size;
      if total > INT_MAX / 2 {
        if total <= INT_MAX {
          size := INT_MAX;
        } else {
          return false;
        }
      } else {
        size := total * 2;
      }
      ghost var before := buffer[..];
      Reallocate(size);
      assert before[..offset] == buffer[..offset];
      ok := true;
    }

    /** `update_offset`: moves the offset to the terminating NUL. */
    method UpdateOffset(ghost p: seq<byte>, ghost t: CString)
      requires Valid() && Pending(p, t)
      modifies this`offset
      ensures Valid() && offset == |p| + |t| && Text() == p + t
    {
      ghost var end := |p| + |t|;
      assert forall i :: offset <= i < end ==> buffer[i] == (p + t)[i];
      while buffer[offset] != NUL
        invariant old(offset) <= offset <= end < length == buffer.Length
        invariant buffer[..end] == p + t && buffer[end] == NUL
        invariant forall i :: old(offset) <= i < end ==> buffer[i] == t[i - |p|]
        decreases end - offset
      {
        offset := offset + 1;
      }
    }

    /** Writes one byte at `at`. */
    method Put(at: nat, b: byte)
      requires Valid() && at < length
      modifies buffer
      ensures buffer[..at] == old(buffer[..at])
      ensures buffer[..at + 1] == old(buffer[..at]) + [b]
    {
      buffer[at] := b;
    }

    /** `strcpy` at the offset. */
    method Strcpy(t: CString)
      requires Valid() && offset + |t| < length
      modifies buffer
      ensures Pending(old(Text()), t)
    {
      Copy(offset, t);
      Put(offset + |t|, NUL);
    }

    /** `memcpy` to `at`. */
    method Copy(at: nat, t: CString)
      requires Valid() && at + |t| < length
      modifies buffer
      ensures buffer[..at + |t|] == old(buffer[..at]) + t
    {
      ghost var p := buffer[..at];
      var i := 0;
      while i < |t|
        invariant 0 <= i <= |t|
        invariant buffer[..at + i] == p + t[..i]
      {
        Put(at + i, t[i]);
        i := i + 1;
        assert t[..i] == t[..i - 1] + [t[i - 1]];
      }
      assert t[..i] == t;
    }

    /** Writes one byte at the offset and advances. */
    method Append(b: byte)
      requires Valid() && offset + 1 < length
      modifies this`offset, buffer
      ensures Valid() && offset == old(offset) + 1 && Text() == old(Text()) + [b]
    {
      Put(offset, b);
      offset := offset + 1;
    }

    /** Writes the last byte of a text and the terminator, without advancing. */
    method Terminate(b: cbyte)
      requires Valid() && offset + 1 < length
      modifies buffer
      ensures Pending(old(Text()), [b])
    {
      ghost var p := Text();
      Put(offset, b);
      Put(offset + 1, NUL);
      Settle(p, [b]);
    }

    lemma TextLength()
      requires Valid()
      ensures |Text()| == offset
    {
    }

    /** Text that was already in place counts as part of what is pending. */
    lemma PendingAfter(p: seq<byte>, a: CString, t: CString)
      requires Pending(p + a, t)
      ensures Pending(p, a + t)
    {
      assert p + a + t == p + (a + t);
    }

    /** `print_number` on the `%d` branch. It advances the offset itself. */
    method PrintNumber(item: Node) returns (ok: bool)
      requires Valid() && item.valueint == IntOf(item.valuedouble) && IsInt(item.valuedouble)
      modifies this`buffer, this`length, this`offset, buffer
      ensures Valid() && Limit() == old(Limit())
      ensures buffer == old(buffer) || fresh(buffer)
      ensures noalloc ==> buffer == old(buffer)
      ensures ok <==> old(offset) + |IntText(item.valueint)| + 2 <= Limit()
      ensures ok ==> Pending(old(Text()), IntText(item.valueint))
    {
      var number := IntText(item.valueint);
      IntTextLength(item.valueint);
      if |number| > 25 {
        return false;
      }
      ok := Ensure(|number| + 1);
      if !ok {
        return;
      }
      Strcpy(number);
      offset := offset + |number|;
    }

    /** A literal: the room for it, then `strcpy`. */
    method PrintLiteral(t: CString) returns (ok: bool)
      requires Valid() && |t| < INT_MAX
      modifies this`buffer, this`length, buffer
      ensures Valid() && Limit() == old(Limit())
      ensures buffer == old(buffer) || fresh(buffer)
      ensures noalloc ==> buffer == old(buffer)
      ensures ok <==> offset + |t| + 2 <= Limit()
      ensures ok ==> Pending(old(Text()), t)
    {
      ok := Ensure(|t| + 1);
      if !ok {
        return;
      }
      Strcpy(t);
    }

    /** `print_string_ptr`: a missing string prints as an empty one. */
    method PrintStringPtr(input: Text?) returns (ok: bool)
      requires Valid()
      modifies this`buffer, this`length, buffer
      ensures Valid() && Limit() == old(Limit())
      ensures buffer == old(buffer) || fresh(buffer)
      ensures noalloc ==> buffer == old(buffer)
      ensures ok <==> offset + |StringText(Contents(input))| + 2 <= Limit()
      ensures ok ==> Pending(old(Text()), StringText(Contents(input)))
    {
      hide StringText, Escape, PrintBuffer.Pending;
      StringTextLength(Contents(input));
      EmptyString();
      if input == null {
        ok := PrintLiteral([QUOTE, QUOTE]);
        return;
      }
      var extra := CountEscapes(input.s);
      ok := Ensure(|input.s| + extra + 3);
      if ok {
        WriteQuoted(input.s, extra);
      }
    }

    /** The writing half of `print_string_ptr`: the closing quote goes where the count says. */
    method WriteQuoted(s: CString, extra: nat)
      requires Valid() && |s| + extra == |Escape(s)| && offset + |s| + extra + 3 < length
      modifies buffer
      ensures Pending(old(Text()), StringText(s))
    {
      hide Escape, StringText, PrintBuffer.Pending;
      var n := |s| + extra;
      ghost var p := Text();
      Put(offset, QUOTE);
      if extra == 0 {
        NothingEscaped(s);
        Copy(offset + 1, s);
      } else {
        CopyEscaped(offset + 1, s);
      }
      Put(offset + n + 1, QUOTE);
      Put(offset + n + 2, NUL);
      Joined(p, s);
      Settle(p, StringText(s));
    }

    /** The text is in place and terminated. */
    lemma Settle(p: seq<byte>, t: CString)
      requires |p| <= offset <= |p| + |t| < length == buffer.Length
      requires buffer[..|p| + |t| + 1] == p + t + [NUL]
      ensures Pending(p, t)
    {
      assert buffer[..|p| + |t|] == buffer[..|p| + |t| + 1][..|p| + |t|];
      assert buffer[|p| + |t|] == buffer[..|p| + |t| + 1][|p| + |t|];
    }

    /** The copying loop of `print_string_ptr`. */
    method CopyEscaped(at: nat, s: CString)
      requires Valid() && at + |Escape(s)| + 1 < length
      modifies buffer
      ensures buffer[..at + |Escape(s)|] == old(buffer[..at]) + Escape(s)
    {
      hide Escape, EscapeByte;
      ghost var p := buffer[..at];
      var out := at;
      var i := 0;
      assert s[..0] == [];
      EscapeNone();
      while i < |s|
        invariant 0 <= i <= |s|
        invariant out == at + |Escape(s[..i])| <= at + |Escape(s)|
        invariant buffer[..out] == p + Escape(s[..i])
      {
        EscapeSnoc(s, i);
        EscapePrefix(s, i + 1);
        out := CopyByte(out, s[i]);
        i := i + 1;
      }
      assert s[..i] == s;
    }

    /** One turn of that loop; `sprintf` also writes a NUL after a `\\u` escape. */
    method CopyByte(at: nat, c: cbyte) returns (out: nat)
      requires Valid() && at + |EscapeByte(c)| < length
      modifies buffer
      ensures out == at + |EscapeByte(c)|
      ensures buffer[..out] == old(buffer[..at]) + EscapeByte(c)
    {
      if c > 31 && c != QUOTE && c != BACKSLASH {
        Put(at, c);
        return at + 1;
      }
      ghost var p := buffer[..at];
      Put(at, BACKSLASH);
      var letter: cbyte;
      match c {
        case 92 => letter := BACKSLASH;
        case 34 => letter := QUOTE;
        case 8 => letter := 98;
        case 12 => letter := 102;
        case 10 => letter := 110;
        case 13 => letter := 114;
        case 9 => letter := 116;
        case _ =>
          CopyHex(p, at, c);
          return at + 6;
      }
      Put(at + 1, letter);
      assert p + [BACKSLASH] + [letter] == p + [BACKSLASH, letter];
      out := at + 2;
    }

    /** `sprintf` of a control byte: four hexadecimal digits, and a NUL after them. */
    method CopyHex(ghost p: seq<byte>, at: nat, c: cbyte)
      requires Valid() && at + 6 < length && buffer[..at + 1] == p + [BACKSLASH] && |p| == at
      requires c < 32 && |EscapeByte(c)| == 6
      modifies buffer
      ensures buffer[..at + 6] == p + EscapeByte(c)
    {
      var digits := [117, ZERO, ZERO, HexDigit(c / 16), HexDigit(c % 16)];
      Copy(at + 1, digits);
      buffer[at + 6] := NUL;
      assert p + [BACKSLASH] + digits == p + ([BACKSLASH] + digits);
    }

    /**
     * `print_value`: the rendering of the value follows the old text. It succeeds exactly when the
     * text, its terminator and one more byte fit under the limit.
     */
    method PrintValue(item: Node) returns (ok: bool)
      requires Valid() && item.Valid() && Printable(item.val)
      modifies this`buffer, this`length, this`offset, this`depth, buffer
      ensures Valid() && Limit() == old(Limit())
      ensures buffer == old(buffer) || fresh(buffer)
      ensures noalloc ==> buffer == old(buffer)
      ensures ok <==> old(offset) + |Render(item.val, format, old(depth))| + 2 <= Limit()
      ensures ok ==> depth == old(depth) && Pending(old(Text()), Render(item.val, format, old(depth)))
      decreases item.val, 3
    {
      hide Node.Valid, PrintBuffer.Pending, Printable, IntText, StringText, IsInt;
      Denotation(item);
      match item.kind {
        case NullKind =>
          ok := PrintLiteral(NULL_TEXT);
        case FalseKind =>
          ok := PrintLiteral(FALSE_TEXT);
        case TrueKind =>
          ok := PrintLiteral(TRUE_TEXT);
        case NumberKind =>
          ok := PrintNumber(item);
        case StringKind =>
          ok := PrintStringPtr(item.valuestring);
        case ArrayKind =>
          ok := PrintArray(item);
        case ObjectKind =>
          ok := PrintObject(item);
      }
    }

    /** `print_array`. */
    method PrintArray(item: Node) returns (ok: bool)
      requires Valid() && item.Valid() && Printable(item.val) && item.kind == ArrayKind
      modifies this`buffer, this`length, this`offset, this`depth, buffer
      ensures Valid() && Limit() == old(Limit())
      ensures buffer == old(buffer) || fresh(buffer)
      ensures noalloc ==> buffer == old(buffer)
      ensures ok <==> old(offset) + |Render(item.val, format, old(depth))| + 2 <= Limit()
      ensures ok ==> depth == old(depth) && Pending(old(Text()), Render(item.val, format, old(depth)))
      decreases item.val, 2
    {
      hide Node.Valid, PrintBuffer.Pending, PrintBuffer.Valid, PrintBuffer.Text, PrintBuffer.Limit, Printable;
      hide ItemsText, Render;
      Denotation(item);
      ghost var p, text := Text(), ItemsText(item.val.items, format, depth + 1);
      RenderArray(item.val, format, depth);
      TextLength();
      ok := Ensure(1);
      if !ok {
        return;
      }
      Append(OPEN_BRACKET);
      depth := depth + 1;
      ok := PrintItems(item);
      if !ok {
        return;
      }
      assert p + [OPEN_BRACKET] + text == p + ([OPEN_BRACKET] + text);
      ok := CloseBracket(p, [OPEN_BRACKET] + text);
      depth := depth - 1;
    }

    /** The closing bracket of an array. */
    method CloseBracket(ghost p: seq<byte>, ghost body: CString) returns (ok: bool)
      requires Valid() && Text() == p + body
      modifies this`buffer, this`length, buffer
      ensures Valid() && Limit() == old(Limit())
      ensures buffer == old(buffer) || fresh(buffer)
      ensures noalloc ==> buffer == old(buffer)
      ensures ok <==> |p| + |body + [CLOSE_BRACKET]| + 2 <= Limit()
      ensures ok ==> Pending(p, body + [CLOSE_BRACKET])
    {
      hide PrintBuffer.Pending, PrintBuffer.Text;
      TextLength();
      ok := Ensure(2);
      if !ok {
        return;
      }
      Terminate(CLOSE_BRACKET);
      PendingAfter(p, body, [CLOSE_BRACKET]);
    }

    /** The loop of `print_array`. */
    method PrintItems(item: Node) returns (ok: bool)
      requires Valid() && item.Valid() && Printable(item.val) && item.kind == ArrayKind && item.val.Array?
      modifies this`buffer, this`length, this`offset, this`depth, buffer
      ensures Valid() && Limit() == old(Limit())
      ensures buffer == old(buffer) || fresh(buffer)
      ensures noalloc ==> buffer == old(buffer)
      ensures !ok ==> old(offset) + |ItemsText(item.val.items, format, old(depth))| + 2 > Limit()
      ensures ok ==> depth == old(depth) && Text() == old(Text()) + ItemsText(item.val.items, format, old(depth))
      decreases item.val, 1
    {
      hide Node.Valid, PrintBuffer.Valid, PrintBuffer.Limit, PrintBuffer.Text, Render, ItemSeparator, ItemsText;
      hide Printable;
      FirstChild(item);
      TextLength();
      ghost var items, p, done := item.val.items, Text(), [];
      assert items[0..] == items && p + done == p;
      ghost var i := 0;
      var current := item.child;
      while current != null
        invariant 0 <= i <= |items| && current == if i < |items| then item.kids[i] else null
        invariant Valid() && Limit() == old(Limit()) && depth == old(depth)
        invariant buffer == old(buffer) || fresh(buffer)
        invariant noalloc ==> buffer == old(buffer)
        invariant Text() == p + done
        invariant done + ItemsText(items[i..], format, depth) == ItemsText(items, format, depth)
        decreases |items| - i
      {
        ghost var piece := Render(items[i], format, depth) + ItemSeparator(format, i + 1 < |items|);
        ItemsStepText(items, i, format, depth, done);
        TextLength();
        ChildAt(item, i);
        ok := PrintItem(current);
        if !ok {
          return;
        }
        done := done + piece;
        current := current.next;
        i := i + 1;
      }
      NoItemsText(items, i, format, depth);
      ok := true;
    }

    /** One turn of that loop: the element and, unless it is the last, a separator. */
    method PrintItem(item: Node) returns (ok: bool)
      requires Valid() && item.Valid() && Printable(item.val)
      modifies this`buffer, this`length, this`offset, this`depth, buffer
      ensures Valid() && Limit() == old(Limit())
      ensures buffer == old(buffer) || fresh(buffer)
      ensures noalloc ==> buffer == old(buffer)
      ensures !ok ==>
        old(offset) + |Render(item.val, format, old(depth)) + ItemSeparator(format, item.next != null)| + 2 > Limit()
      ensures ok ==> depth == old(depth)
      ensures ok ==>
        Text() == old(Text()) + (Render(item.val, format, old(depth)) + ItemSeparator(format, item.next != null))
      decreases item.val, 4
    {
      hide Node.Valid, PrintBuffer.Pending, Printable, Render;
      ghost var p, text := Text(), Render(item.val, format, depth);
      ok := PrintValue(item);
      if !ok {
        return;
      }
      UpdateOffset(p, text);
      TextLength();
      ok := PrintItemSeparator(item.next != null);
      assert p + text + ItemSeparator(format, item.next != null)
        == p + (text + ItemSeparator(format, item.next != null));
    }

    /** The separator after an element, with a NUL after it. */
    method PrintItemSeparator(more: bool) returns (ok: bool)
      requires Valid()
      modifies this`buffer, this`length, this`offset, buffer
      ensures Valid() && Limit() == old(Limit())
      ensures buffer == old(buffer) || fresh(buffer)
      ensures noalloc ==> buffer == old(buffer)
      ensures !ok ==> old(offset) + |ItemSeparator(format, more)| + 2 > Limit()
      ensures ok ==> Text() == old(Text()) + ItemSeparator(format, more)
    {
      if !more {
        return true;
      }
      var n := if format then 2 else 1;
      ok := Ensure(n + 1);
      if !ok {
        return;
      }
      Append(COMMA);
      if format {
        Append(SPACE);
      }
      Put(offset, NUL);
    }

    /** `print_object`. */
    method PrintObject(item: Node) returns (ok: bool)
      requires Valid() && item.Valid() && Printable(item.val) && item.kind == ObjectKind
      modifies this`buffer, this`length, this`offset, this`depth, buffer
      ensures Valid() && Limit() == old(Limit())
      ensures buffer == old(buffer) || fresh(buffer)
      ensures noalloc ==> buffer == old(buffer)
      ensures ok <==> old(offset) + |Render(item.val, format, old(depth))| + 2 <= Limit()
      ensures ok ==> depth == old(depth) && Pending(old(Text()), Render(item.val, format, old(depth)))
      decreases item.val, 2
    {
      hide Node.Valid, PrintBuffer.Pending, PrintBuffer.Valid, PrintBuffer.Text, PrintBuffer.Limit, Printable;
      hide MembersText, OpenObject, CloseObject, Render;
      Denotation(item);
      ghost var p, text := Text(), MembersText(item.val.members, format, depth + 1);
      RenderObject(item.val, format, depth);
      TextLength();
      ok := PrintOpenObject();
      if !ok {
        return;
      }
      TextLength();
      depth := depth + 1;
      ok := PrintMembers(item);
      if !ok {
        return;
      }
      assert p + OpenObject(format) + text == p + (OpenObject(format) + text);
      ok := CloseBrace(p, OpenObject(format) + text);
      depth := depth - 1;
    }

    /** The opening brace and, when formatting, a newline. */
    method PrintOpenObject() returns (ok: bool)
      requires Valid()
      modifies this`buffer, this`length, this`offset, buffer
      ensures Valid() && Limit() == old(Limit())
      ensures buffer == old(buffer) || fresh(buffer)
      ensures noalloc ==> buffer == old(buffer)
      ensures ok <==> old(offset) + |OpenObject(format)| + 2 <= Limit()
      ensures ok ==> Text() == old(Text()) + OpenObject(format)
    {
      hide PrintBuffer.Text;
      ghost var p := Text();
      var n := if format then 2 else 1;
      ok := Ensure(n + 1);
      if !ok {
        return;
      }
      Append(OPEN_BRACE);
      if format {
        Append(NEWLINE);
        assert p + [OPEN_BRACE] + [NEWLINE] == p + [OPEN_BRACE, NEWLINE];
      }
    }

    /** The closing brace, indented when formatting. */
    method CloseBrace(ghost p: seq<byte>, ghost body: CString) returns (ok: bool)
      requires Valid() && Text() == p + body && depth >= 1
      modifies this`buffer, this`length, this`offset, buffer
      ensures Valid() && Limit() == old(Limit())
      ensures buffer == old(buffer) || fresh(buffer)
      ensures noalloc ==> buffer == old(buffer)
      ensures ok <==> |p| + |body + CloseObject(format, depth - 1)| + 2 <= Limit()
      ensures ok ==> Pending(p, body + CloseObject(format, depth - 1))
    {
      hide PrintBuffer.Pending, PrintBuffer.Text, Tabs;
      TextLength();
      TabsLength(depth - 1);
      ok := Ensure(if format then depth + 1 else 2);
      if !ok {
        return;
      }
      ghost var white := if format then Tabs(depth - 1) else [];
      if format {
        WriteTabs(depth - 1);
      }
      assert p + body + white == p + (body + white);
      Terminate(CLOSE_BRACE);
      PendingAfter(p, body + white, [CLOSE_BRACE]);
      assert body + white + [CLOSE_BRACE] == body + (white + [CLOSE_BRACE]);
    }

    /** The indentation loop. */
    method WriteTabs(n: nat)
      requires Valid() && offset + n < length
      modifies this`offset, buffer
      ensures Valid() && Text() == old(Text()) + Tabs(n)
      ensures offset == old(offset) + n
    {
      hide PrintBuffer.Text;
      ghost var p := Text();
      var i := 0;
      assert p + Tabs(0) == p;
      while i < n
        invariant 0 <= i <= n && offset == old(offset) + i && Valid()
        invariant Text() == p + Tabs(i)
      {
        Append(TAB);
        assert p + Tabs(i) + [TAB] == p + Tabs(i + 1);
        i := i + 1;
      }
    }

    /** The loop of `print_object`. */
    method PrintMembers(item: Node) returns (ok: bool)
      requires Valid() && item.Valid() && Printable(item.val) && item.kind == ObjectKind && item.val.Object?
      modifies this`buffer, this`length, this`offset, this`depth, buffer
      ensures Valid() && Limit() == old(Limit())
      ensures buffer == old(buffer) || fresh(buffer)
      ensures noalloc ==> buffer == old(buffer)
      ensures !ok ==> old(offset) + |MembersText(item.val.members, format, old(depth))| + 2 > Limit()
      ensures ok ==> depth == old(depth) && Text() == old(Text()) + MembersText(item.val.members, format, old(depth))
      decreases item.val, 1
    {
      hide Node.Valid, PrintBuffer.Valid, PrintBuffer.Limit, PrintBuffer.Text, MemberText, MembersText, Printable;
      FirstChild(item);
      TextLength();
      ghost var members, p, done := item.val.members, Text(), [];
      assert members[0..] == members && p + done == p;
      ghost var i := 0;
      var current := item.child;
      while current != null
        invariant 0 <= i <= |members| && current == if i < |members| then item.kids[i] else null
        invariant Valid() && Limit() == old(Limit()) && depth == old(depth)
        invariant buffer == old(buffer) || fresh(buffer)
        invariant noalloc ==> buffer == old(buffer)
        invariant Text() == p + done
        invariant done + MembersText(members[i..], format, depth) == MembersText(members, format, depth)
        decreases |members| - i
      {
        ghost var piece := MemberText(members[i], format, depth, i + 1 < |members|);
        MembersStepText(members, i, format, depth, done);
        TextLength();
        ChildAt(item, i);
        ok := PrintMember(current);
        if !ok {
          return;
        }
        assert p + done + piece == p + (done + piece);
        done := done + piece;
        current := current.next;
        i := i + 1;
      }
      NoMembersText(members, i, format, depth);
      ok := true;
    }

    /** One turn of that loop: indentation, name, value and what follows. */
    method PrintMember(item: Node) returns (ok: bool)
      requires Valid() && item.Valid() && Printable(item.val) && item.key != null
      modifies this`buffer, this`length, this`offset, this`depth, buffer
      ensures Valid() && Limit() == old(Limit())
      ensures buffer == old(buffer) || fresh(buffer)
      ensures noalloc ==> buffer == old(buffer)
      ensures !ok ==>
        old(offset) + |MemberText(Member(item.key.s, item.val), format, old(depth), item.next != null)| + 2 > Limit()
      ensures ok ==> depth == old(depth)
      ensures ok ==>
        Text() == old(Text()) + MemberText(Member(item.key.s, item.val), format, old(depth), item.next != null)
      decreases item.val, 4
    {
      hide Node.Valid, PrintBuffer.Valid, PrintBuffer.Limit, PrintBuffer.Text, PrintBuffer.Pending, Printable, Render;
      hide MemberHead, MemberTail;
      ghost var p, head, text := Text(), MemberHead(item.key.s, format, depth), Render(item.val, format, depth);
      ghost var tail := MemberTail(format, item.next != null);
      TextLength();
      ok := PrintMemberHead(item);
      if !ok {
        return;
      }
      TextLength();
      ok := PrintValue(item);
      if !ok {
        return;
      }
      UpdateOffset(p + head, text);
      ok := PrintMemberTail(item.next != null);
      assert p + head + text + tail == p + (head + text + tail);
    }

    /** Indentation, name and colon. */
    method PrintMemberHead(item: Node) returns (ok: bool)
      requires Valid() && item.key != null
      modifies this`buffer, this`length, this`offset, buffer
      ensures Valid() && Limit() == old(Limit())
      ensures buffer == old(buffer) || fresh(buffer)
      ensures noalloc ==> buffer == old(buffer)
      ensures !ok ==> old(offset) + |MemberHead(item.key.s, format, depth)| + 1 > Limit()
      ensures ok ==> Text() == old(Text()) + MemberHead(item.key.s, format, depth)
    {
      hide PrintBuffer.Valid, PrintBuffer.Limit, PrintBuffer.Text, PrintBuffer.Pending, StringText, Tabs, KeySeparator;
      ghost var p, key := Text(), StringText(item.key.s);
      ghost var white, colon := if format then Tabs(depth) else [], KeySeparator(format);
      TextLength();
      TabsLength(depth);
      KeySeparatorLength(format);
      ok := PrintIndent();
      if !ok {
        return;
      }
      TextLength();
      ok := PrintStringPtr(item.key);
      if !ok {
        return;
      }
      UpdateOffset(p + white, key);
      ok := PrintColon();
      assert p + white + key + colon == p + (white + key + colon);
    }

    method PrintIndent() returns (ok: bool)
      requires Valid()
      modifies this`buffer, this`length, this`offset, buffer
      ensures Valid() && Limit() == old(Limit())
      ensures buffer == old(buffer) || fresh(buffer)
      ensures noalloc ==> buffer == old(buffer)
      ensures !ok ==> format && old(offset) + depth + 1 > Limit()
      ensures ok ==> Text() == old(Text()) + (if format then Tabs(depth) else [])
    {
      hide PrintBuffer.Text, Tabs;
      ghost var p := Text();
      assert p + [] == p;
      if format {
        ok := Ensure(depth);
        if !ok {
          return;
        }
        WriteTabs(depth);
      }
      ok := true;
    }

    method PrintColon() returns (ok: bool)
      requires Valid()
      modifies this`buffer, this`length, this`offset, buffer
      ensures Valid() && Limit() == old(Limit())
      ensures buffer == old(buffer) || fresh(buffer)
      ensures noalloc ==> buffer == old(buffer)
      ensures !ok ==> old(offset) + |KeySeparator(format)| + 1 > Limit()
      ensures ok ==> Text() == old(Text()) + KeySeparator(format)
    {
      hide PrintBuffer.Text;
      ghost var p := Text();
      ok := Ensure(if format then 2 else 1);
      if !ok {
        return;
      }
      Append(COLON);
      if format {
        Append(TAB);
        assert p + [COLON] + [TAB] == p + [COLON, TAB];
      }
    }

    /** A comma unless the member is the last, a newline when formatting, and a NUL. */
    method PrintMemberTail(more: bool) returns (ok: bool)
      requires Valid()
      modifies this`buffer, this`length, this`offset, buffer
      ensures Valid() && Limit() == old(Limit())
      ensures buffer == old(buffer) || fresh(buffer)
      ensures noalloc ==> buffer == old(buffer)
      ensures !ok ==> old(offset) + |MemberTail(format, more)| + 2 > Limit()
      ensures ok ==> Text() == old(Text()) + MemberTail(format, more)
    {
      hide PrintBuffer.Text;
      ghost var p := Text();
      var n := (if format then 1 else 0) + (if more then 1 else 0);
      ok := Ensure(n + 1);
      if !ok {
        return;
      }
      if more {
        Append(COMMA);
      }
      if format {
        Append(NEWLINE);
      }
      assert Text() == p + MemberTail(format, more);
      PutNul();
    }

    /** Terminates the text at the offset. */
    method PutNul()
      requires Valid() && offset < length
      modifies buffer
      ensures Text() == old(Text())
    {
      Put(offset, NUL);
    }
  }

  /** The text of one member. */
  function MemberText(m: Member, format: bool, depth: nat, more: bool): CString {
    MemberHead(m.key, format, depth) + Render(m.value, format, depth) + MemberTail(format, more)
  }

  lemma TabsLength(n: nat)
    ensures |Tabs(n)| == n
  {
  }

  lemma KeySeparatorLength(format: bool)
    ensures |KeySeparator(format)| >= 1
  {
  }

  lemma RenderObject(v: Json, format: bool, depth: nat)
    requires v.Object?
    ensures Render(v, format, depth)
         == OpenObject(format) + MembersText(v.members, format, depth + 1) + CloseObject(format, depth)
    ensures |CloseObject(format, depth)| >= 1
  {
  }

  lemma MembersUnfold(members: seq<Member>, i: nat, format: bool, depth: nat)
    requires i < |members|
    ensures MembersText(members[i..], format, depth)
         == MemberText(members[i], format, depth, i + 1 < |members|) + MembersText(members[i + 1..], format, depth)
  {
    hide Render, MemberHead, MemberTail;
    assert members[i..][1..] == members[i + 1..];
  }

  lemma MembersStepText(members: seq<Member>, i: nat, format: bool, depth: nat, done: CString)
    requires i < |members|
    requires done + MembersText(members[i..], format, depth) == MembersText(members, format, depth)
    ensures var piece := MemberText(members[i], format, depth, i + 1 < |members|);
            done + piece + MembersText(members[i + 1..], format, depth) == MembersText(members, format, depth)
            && |done| + |piece| <= |MembersText(members, format, depth)|
  {
    hide MemberText, MembersText;
    MembersUnfold(members, i, format, depth);
    var piece := MemberText(members[i], format, depth, i + 1 < |members|);
    assert done + piece + MembersText(members[i + 1..], format, depth)
      == done + (piece + MembersText(members[i + 1..], format, depth));
  }

  lemma NoMembersText(members: seq<Member>, i: nat, format: bool, depth: nat)
    requires i == |members|
    ensures MembersText(members[i..], format, depth) == []
  {
  }

  lemma RenderArray(v: Json, format: bool, depth: nat)
    requires v.Array?
    ensures Render(v, format, depth) == [OPEN_BRACKET] + ItemsText(v.items, format, depth + 1) + [CLOSE_BRACKET]
    ensures |Render(v, format, depth)| == |ItemsText(v.items, format, depth + 1)| + 2
  {
  }

  lemma ItemsUnfold(items: seq<Json>, i: nat, format: bool, depth: nat)
    requires i < |items|
    ensures ItemsText(items[i..], format, depth)
         == Render(items[i], format, depth) + ItemSeparator(format, i + 1 < |items|)
            + ItemsText(items[i + 1..], format, depth)
  {
    hide Render, ItemSeparator;
    assert items[i..][1..] == items[i + 1..];
  }

  lemma ItemsStepText(items: seq<Json>, i: nat, format: bool, depth: nat, done: CString)
    requires i < |items|
    requires done + ItemsText(items[i..], format, depth) == ItemsText(items, format, depth)
    ensures var piece := Render(items[i], format, depth) + ItemSeparator(format, i + 1 < |items|);
            done + piece + ItemsText(items[i + 1..], format, depth) == ItemsText(items, format, depth)
            && |done| + |piece| <= |ItemsText(items, format, depth)|
  {
    hide Render, ItemSeparator, ItemsText;
    ItemsUnfold(items, i, format, depth);
    var piece := Render(items[i], format, depth) + ItemSeparator(format, i + 1 < |items|);
    assert done + piece + ItemsText(items[i + 1..], format, depth)
      == done + (piece + ItemsText(items[i + 1..], format, depth));
  }

  lemma NoItemsText(items: seq<Json>, i: nat, format: bool, depth: nat)
    requires i == |items|
    ensures ItemsText(items[i..], format, depth) == []
  {
  }

  /** The string behind a pointer; a null pointer prints as the empty string. */
  function Contents(t: Text?): CString { if t == null then [] else t.s }

  lemma StringTextLength(s: CString)
    ensures |StringText(s)| == |Escape(s)| + 2
  {
  }

  lemma EmptyString()
    ensures StringText([]) == [QUOTE, QUOTE]
  {
  }

  /** `escape_characters`: the bytes that escaping adds, counted in advance. */
  method CountEscapes(s: CString) returns (extra: nat)
    ensures |s| + extra == |Escape(s)|
  {
    hide Escape;
    extra := 0;
    var i := 0;
    assert s[..0] == [];
    EscapeNone();
    while i < |s|
      invariant 0 <= i <= |s|
      invariant i + extra == |Escape(s[..i])|
    {
      EscapeSnoc(s, i);
      if s[i] == QUOTE || s[i] == BACKSLASH || s[i] == BACKSPACE || s[i] == FORMFEED
        || s[i] == NEWLINE || s[i] == RETURN || s[i] == TAB {
        extra := extra + 1;
      } else if s[i] < 32 {
        extra := extra + 5;
      }
      i := i + 1;
    }
    assert s[..i] == s;
  }

  lemma EscapeNone()
    ensures Escape([]) == []
  {
  }

  lemma EscapeSnoc(s: CString, i: nat)
    requires i < |s|
    ensures Escape(s[..i + 1]) == Escape(s[..i]) + EscapeByte(s[i])
  {
    hide EscapeByte;
    assert s[..i + 1] == s[..i] + [s[i]];
    EscapeConcat(s[..i], [s[i]]);
    assert [s[i]][1..] == [];
    assert Escape([s[i]]) == EscapeByte(s[i]) + Escape([]);
  }

  lemma EscapePrefix(s: CString, i: nat)
    requires i <= |s|
    ensures |Escape(s[..i])| <= |Escape(s)|
  {
    assert s == s[..i] + s[i..];
    EscapeConcat(s[..i], s[i..]);
  }

  /** When nothing was counted, the string is its own escape. */
  lemma {:induction false} NothingEscaped(s: CString)
    requires |Escape(s)| == |s|
    ensures Escape(s) == s
  {
    if s != [] {
      EscapeGrows(s[1..]);
      NothingEscaped(s[1..]);
    }
  }

  lemma EscapeGrows(s: CString)
    ensures |Escape(s)| >= |s|
  {
  }

  lemma Joined(p: seq<byte>, s: CString)
    ensures |StringText(s)| == |Escape(s)| + 2
    ensures p + [QUOTE] + Escape(s) + [QUOTE] + [NUL] == p + StringText(s) + [NUL]
  {
    assert p + [QUOTE] + Escape(s) + [QUOTE] == p + StringText(s);
  }

  /** `print`: an initial buffer of 256 bytes, then the text and its NUL in a block of exactly their size. */
  method Print(item: Node, format: bool) returns (printed: array?<byte>)
    requires item.Valid() && Printable(item.val)
    ensures printed != null <==> |Render(item.val, format, 0)| + 2 <= INT_MAX
    ensures printed != null ==> fresh(printed) && printed[..] == Render(item.val, format, 0) + [NUL]
  {
    hide Node.Valid, Printable, Render;
    var initial := new byte[256];
    var p := new PrintBuffer(initial, false, format);
    ghost var text := Render(item.val, format, 0);
    assert p.Text() == [];
    var ok := p.PrintValue(item);
    if !ok {
      return null;
    }
    p.UpdateOffset([], text);
    assert [] + text == text;
    printed := Shrink(p.buffer, p.offset);
  }

  /** `realloc` to the final size. */
  method Shrink(buffer: array<byte>, n: nat) returns (a: array<byte>)
    requires n < buffer.Length && buffer[n] == NUL
    ensures fresh(a) && a[..] == buffer[..n] + [NUL]
  {
    a := new byte[n + 1];
    var i := 0;
    while i <= n
      invariant 0 <= i <= n + 1
      invariant forall j :: 0 <= j < i ==> a[j] == buffer[j]
      invariant buffer[..] == old(buffer[..])
      modifies a
    {
      a[i] := buffer[i];
      i := i + 1;
    }
    assert a[..n] == buffer[..n];
    assert a[..] == a[..n] + [a[n]];
  }

  /** `cJSON_PrintBuffered`: the same text for every initial size; the block may be larger than the text. */
  method PrintBuffered(item: Node, prebuffer: int, format: bool) returns (printed: array?<byte>)
    requires item.Valid() && Printable(item.val) && prebuffer <= INT_MAX
    ensures printed != null <==> 0 <= prebuffer && |Render(item.val, format, 0)| + 2 <= INT_MAX
    ensures printed != null ==> fresh(printed) && |Render(item.val, format, 0)| < printed.Length
    ensures printed != null ==> printed[..|Render(item.val, format, 0)| + 1] == Render(item.val, format, 0) + [NUL]
  {
    hide Node.Valid, Printable, Render;
    if prebuffer < 0 {
      return null;
    }
    var initial := new byte[prebuffer];
    var p := new PrintBuffer(initial, false, format);
    assert p.Text() == [];
    var ok := p.PrintValue(item);
    if !ok {
      return null;
    }
    ghost var text := Render(item.val, format, 0);
    assert [] + text == text && p.buffer[..|text| + 1] == p.buffer[..|text|] + [p.buffer[|text|]];
    printed := p.buffer;
  }

  /** `cJSON_PrintPreallocated`: it succeeds exactly when the caller's buffer has two bytes more than the text. */
  method PrintPreallocated(item: Node, buffer: array?<byte>, length: int, format: bool) returns (ok: bool)
    requires item.Valid() && Printable(item.val)
    requires buffer != null && 0 <= length ==> length == buffer.Length <= INT_MAX
    modifies if buffer == null then {} else {buffer}
    ensures ok <==> buffer != null && |Render(item.val, format, 0)| + 2 <= length
    ensures ok ==> buffer[..|Render(item.val, format, 0)| + 1] == Render(item.val, format, 0) + [NUL]
  {
    hide Node.Valid, Printable, Render;
    if length < 0 || buffer == null {
      return false;
    }
    var p := new PrintBuffer(buffer, true, format);
    assert p.Text() == [];
    ok := p.PrintValue(item);
    if ok {
      ghost var text := Render(item.val, format, 0);
      assert [] + text == text && buffer[..|text| + 1] == buffer[..|text|] + [buffer[|text|]];
    }
  }
}
