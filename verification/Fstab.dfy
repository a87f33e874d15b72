/** `Fstab`: an open fstab file, read and rewritten in place through a file position. */
module Fstab {
  import opened Wrappers
  import opened FstabText

  class Fstab {
    var content: string
    var pos: nat

    predicate Valid()
      reads this
    {
      pos <= |content|
    }

    constructor (content: string)
      ensures Valid() && this.content == content
    {
      this.content, pos := content, 0;
    }

    /** Overwrites from the position on, extending the file where the text runs past its end. */
    method Write(text: string)
      requires Valid()
      modifies this
      ensures Valid() && pos == old(pos) + |text|
      ensures content[..pos] == old(content)[..old(pos)] + text
      ensures old(pos) == |old(content)| ==> pos == |content|
    {
      var end := pos + |text|;
      content := content[..pos] + text + if end < |content| then content[end..] else "";
      pos := end;
    }

    method Truncate()
      requires Valid()
      modifies this`content
      ensures Valid() && content == old(content)[..pos]
    {
      content := content[..pos];
    }

    /** `write` and `truncate` at the end of the file. */
    method Append(text: string)
      requires Valid() && pos == |content|
      modifies this
      ensures Valid() && content == old(content) + text
    {
      Write(text);
      Truncate();
    }

    /** `seek(0)` and `readlines()`: every line, with the position left at the end. */
    method ReadLines() returns (lines: seq<string>)
      modifies this`pos
      ensures Valid() && pos == |content| && lines == Lines(content)
    {
      lines := [];
      pos := 0;
      while pos < |content|
        invariant ReadTo(content, pos, lines)
        decreases |content| - pos
      {
        var line := LineAt(content, pos);
        NextLine(content, pos, lines);
        lines := lines + [line];
        pos := pos + |line|;
      }
      ReadToEnd(content, lines);
    }

    method GetEntryByAttr(attr: Attribute, value: string) returns (r: Result<Option<Entry>, Error>)
      modifies this`pos
      ensures Valid() && pos == |content|
      ensures r == Find(Lines(content), attr, value)
      ensures IsFound(Lines(content), attr, value, r)
    {
      var lines := ReadLines();
      r := EntryOf(lines, attr, value);
      FindIs(lines, attr, value);
    }

    /** `add_entry`: refuses a device that is there already, else appends a line. */
    method AddEntry(e: Entry) returns (r: Result<bool, Error>)
      modifies this
      ensures Valid()
      ensures match AddText(old(content), e)
              case Ok(o) => r == Ok(o.done) && content == o.content
              case Raise(x) => r == Raise(x) && content == old(content)
      ensures IsAdded(old(content), e, r, content)
    {
      AddIs(content, e);
      var found := GetEntryByAttr(Device, e.device);
      if found.Raise? {
        return Raise(found.error);
      }
      if found.value.Some? {
        return Ok(false);
      }
      Append(Show(e) + "\n");
      return Ok(true);
    }

    /** `remove_entry`: rewrites the file without the first line that is this entry. */
    method RemoveEntry(e: Entry) returns (r: Result<bool, Error>)
      modifies this
      ensures Valid()
      ensures match RemoveText(old(content), e)
              case Ok(o) => r == Ok(o.done) && content == o.content
              case Raise(x) => r == Raise(x) && content == old(content)
      ensures IsRemoved(old(content), e, r, content)
    {
      RemoveIs(content, e);
      var lines := ReadLines();
      var found := LineOf(lines, e);
      if found.Raise? {
        return Raise(found.error);
      }
      if found.value.None? {
        return Ok(false);
      }
      LocateInRange(lines, e);
      var kept := RemoveFirst(lines, lines[found.value.value]);
      pos := 0;
      Write(Join(kept));
      Truncate();
      return Ok(true);
    }

    /** `remove_by_mountpoint`. */
    method RemoveByMountpoint(mountpoint: string) returns (r: Result<bool, Error>)
      modifies this
      ensures Valid()
      ensures match RemoveByMountpointText(old(content), mountpoint)
              case Ok(o) => r == Ok(o.done) && content == o.content
              case Raise(x) => r == Raise(x) && content == old(content)
      ensures IsUnmounted(old(content), mountpoint, r, content)
    {
      UnmountIs(content, mountpoint);
      var found := GetEntryByAttr(Mountpoint, mountpoint);
      if found.Raise? {
        return Raise(found.error);
      }
      if found.value.None? {
        return Ok(false);
      }
      r := RemoveEntry(found.value.value);
    }
  }

  /** The loop of `get_entry_by_attr`. A line whose numbers do not parse is passed over. */
  method EntryOf(lines: seq<string>, attr: Attribute, value: string) returns (r: Result<Option<Entry>, Error>)
    ensures r == Find(lines, attr, value)
  {
    for i := 0 to |lines|
      invariant Find(lines, attr, value) == Find(lines[i..], attr, value)
    {
      if IsSignificant(lines[i]) {
        match Hydrate(lines[i]) {
          case Ok(e) =>
            if AttributeOf(e, attr) == value {
              return Ok(Some(e));
            }
          case Raise(ValueError) =>
          case Raise(TypeError) => return Raise(TypeError);
        }
      }
    }
    return Ok(None);
  }

  /** The loop of `remove_entry`. */
  method LineOf(lines: seq<string>, e: Entry) returns (found: Result<Option<nat>, Error>)
    ensures found == Locate(lines, e)
  {
    for i := 0 to |lines|
      invariant Locate(lines, e) == Shifted(Locate(lines[i..], e), i)
    {
      LocateStep(lines, e, i);
      if IsSignificant(lines[i]) {
        var hydrated := Hydrate(lines[i]);
        if hydrated.Raise? {
          return Raise(hydrated.error);
        }
        if Show(hydrated.value) == Show(e) {
          return Ok(Some(i));
        }
      }
    }
    return Ok(None);
  }

  /** Python's `lines.remove(line)`: drops the first equal element. */
  method RemoveFirst(lines: seq<string>, line: string) returns (kept: seq<string>)
    requires line in lines
    ensures exists i :: 0 <= i < |lines| && lines[i] == line && line !in lines[..i] && kept == Without(lines, i)
    ensures forall i: nat :: i < |lines| && lines[i] == line && (forall j :: 0 <= j < i ==> lines[j] != line)
                             ==> kept == Without(lines, i)
  {
    var i := 0;
    while lines[i] != line
      invariant 0 <= i < |lines| && line !in lines[..i]
      decreases |lines| - i
    {
      assert line in lines[i..] by { assert lines == lines[..i] + lines[i..]; }
      i := i + 1;
    }
    kept := lines[..i] + lines[i + 1..];
  }
}
