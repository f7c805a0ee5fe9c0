/** Files and the form in which they travel (commons/file_manager/file.cpp). */
module Files {
  import opened Bytes

  datatype FileValue = FileValue(name: bytes, data: bytes)

  const NAME_SIZE := 256
  const FILE_HEADER := 4 + NAME_SIZE

  function Zeros(n: nat): (z: bytes)
    ensures |z| == n && forall k :: 0 <= k < n ==> z[k] == '\0'
  {
    seq(n, _ => '\0')
  }

  /** The name fits the array together with its terminator, and the whole fits an int. */
  predicate Storable(f: FileValue) {
    |CStr(f.name)| < NAME_SIZE && |f.data| + FILE_HEADER < TWO_31
  }

  function NameField(name: bytes): (field: bytes)
    requires |CStr(name)| < NAME_SIZE
    ensures |field| == NAME_SIZE
  {
    CStr(name) + Zeros(NAME_SIZE - |CStr(name)|)
  }

  function Serialize(f: FileValue): bytes
    requires Storable(f)
  {
    U32Bytes(|f.data|) + NameField(f.name) + f.data
  }

  function SizeField(payload: bytes): i32
    requires |payload| >= FILE_HEADER
  {
    ToI32(U32Of(payload[0..4]))
  }

  /** What `from_data` takes for granted of the bytes it is given. */
  predicate WellFormed(payload: bytes) {
    && |payload| >= FILE_HEADER
    && 0 <= SizeField(payload) <= |payload| - FILE_HEADER
    && '\0' in payload[4..FILE_HEADER]
  }

  function Deserialize(payload: bytes): FileValue
    requires WellFormed(payload)
  {
    FileValue(CStr(payload[4..FILE_HEADER]), payload[FILE_HEADER..FILE_HEADER + SizeField(payload)])
  }

  lemma NameRoundTrip(name: bytes)
    requires |CStr(name)| < NAME_SIZE
    ensures CStr(NameField(name)) == CStr(name)
    ensures '\0' in NameField(name)
  {
    var s, field := CStr(name), NameField(name);
    CStrHasNoNul(name);
    assert field == s + "\0" + Zeros(NAME_SIZE - |s| - 1);
    CStrOfTerminated(s, Zeros(NAME_SIZE - |s| - 1));
    assert field[|s|] == '\0';
  }

  /** Reading the bytes of a file gives back the data always, and the name exactly when it holds no NUL. */
  lemma FileRoundTrip(f: FileValue)
    requires Storable(f)
    ensures WellFormed(Serialize(f))
    ensures Deserialize(Serialize(f)) == FileValue(CStr(f.name), f.data)
    ensures Deserialize(Serialize(f)) == f <==> '\0' !in f.name
  {
    var payload := Serialize(f);
    assert payload[0..4] == U32Bytes(|f.data|);
    assert payload[4..FILE_HEADER] == NameField(f.name);
    assert payload[FILE_HEADER..FILE_HEADER + |f.data|] == f.data;
    U32RoundTrip(|f.data|);
    NameRoundTrip(f.name);
    CStrHasNoNul(f.name);
  }

  /** Where each byte of a file is: the size, the name up to its padding, and then the data. */
  lemma SerializedLayout(f: FileValue)
    requires Storable(f) && '\0' !in f.name && |f.name| < NAME_SIZE
    ensures var s, n, m := Serialize(f), |f.data|, |f.name|;
            && |s| == 260 + n
            && s[0] as int == n % 256 && s[1] as int == n / 256 % 256
            && s[2] as int == n / 65536 % 256 && s[3] as int == n / 16777216
            && s[4..4 + m] == f.name && (forall k :: 4 + m <= k < 260 ==> s[k] == '\0') && s[260..] == f.data
  {
    CStrHasNoNul(f.name);
    var s := Serialize(f);
    assert s[4..260] == NameField(f.name);
    assert forall k :: 4 + |f.name| <= k < 260 ==> s[k] == s[4..260][k - 4];
  }

  /** What follows the name's terminator, and what follows the data, does not matter. */
  lemma OtherBytesDoNotMatter(name: bytes, junk: bytes, data: bytes, rest: bytes)
    requires '\0' !in name && |name| + 1 + |junk| == NAME_SIZE && |data| + FILE_HEADER < TWO_31
    ensures var payload := U32Bytes(|data|) + (name + "\0" + junk) + data + rest;
            WellFormed(payload) && Deserialize(payload) == FileValue(name, data)
  {
    var payload := U32Bytes(|data|) + (name + "\0" + junk) + data + rest;
    assert payload[0..4] == U32Bytes(|data|);
    assert payload[4..FILE_HEADER] == name + "\0" + junk;
    assert payload[FILE_HEADER..FILE_HEADER + |data|] == data;
    U32RoundTrip(|data|);
    CStrOfTerminated(name, junk);
    assert (name + "\0" + junk)[|name|] == '\0';
  }

  /** What was read can be written again, and is then read the same. */
  lemma ReadIsStorable(payload: bytes)
    requires WellFormed(payload) && |payload| < TWO_31
    ensures Storable(Deserialize(payload))
    ensures WellFormed(Serialize(Deserialize(payload)))
    ensures Deserialize(Serialize(Deserialize(payload))) == Deserialize(payload)
  {
    CStrStopsAtNul(payload[4..FILE_HEADER]);
    CStrHasNoNul(payload[4..FILE_HEADER]);
    CStrHasNoNul(Deserialize(payload).name);
    FileRoundTrip(Deserialize(payload));
  }

  /** A directory on disk: the regular files in it. */
  class Directory {
    var files: map<bytes, bytes>

    constructor (content: map<bytes, bytes>)
      ensures files == content
    {
      files := content;
    }
  }

  class File {
    var filename: bytes
    var data: array<byte>

    function Value(): FileValue
      reads this, data
    {
      FileValue(filename, data[..])
    }

    constructor (name: bytes)
      ensures filename == name && data.Length == 0 && fresh(data)
    {
      filename := name;
      data := new byte[0];
    }

    method ReadFile(dir: Directory) returns (err: int)
      modifies this`data
      ensures filename == old(filename)
      ensures err == 0 <==> filename in dir.files
      ensures err == 0 ==> data[..] == dir.files[filename] && fresh(data)
      ensures err != 0 ==> err == -1 && data == old(data)
    {
      if filename !in dir.files {
        return -1;
      }
      var content := dir.files[filename];
      data := new byte[|content|](k requires 0 <= k < |content| => content[k]);
      return 0;
    }

    method WriteFile(dir: Directory)
      modifies dir
      ensures dir.files == old(dir.files)[filename := data[..]]
    {
      dir.files := dir.files[filename := data[..]];
    }

    /** The serialized form, laid out in one buffer: size, name array, data. */
    method ToData() returns (payload: bytes)
      requires Storable(Value())
      ensures payload == Serialize(Value())
    {
      var name, size := CStr(filename), U32Bytes(data.Length);
      var buf := new byte[FILE_HEADER + data.Length](_ => '\0');
      forall k | 0 <= k < 4 {
        buf[k] := size[k];
      }
      forall k | 0 <= k < |name| {
        buf[4 + k] := name[k];
      }
      forall k | 0 <= k < data.Length {
        buf[FILE_HEADER + k] := data[k];
      }
      assert buf[0..4] == size;
      assert buf[4..FILE_HEADER] == NameField(filename);
      assert buf[FILE_HEADER..] == data[..];
      assert buf[..] == buf[0..4] + buf[4..FILE_HEADER] + buf[FILE_HEADER..];
      payload := buf[..];
    }

    /** `from_data` followed by `deserialize`. */
    method FromData(payload: bytes)
      requires WellFormed(payload)
      modifies this
      ensures Value() == Deserialize(payload) && fresh(data)
    {
      var size := SizeField(payload);
      filename := CStr(payload[4..FILE_HEADER]);
      data := new byte[size](k requires 0 <= k < size => payload[FILE_HEADER + k]);
      assert data[..] == payload[FILE_HEADER..FILE_HEADER + size];
    }
  }
}
