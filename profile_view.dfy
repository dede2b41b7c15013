/** The pure helpers of the profile screen: selecting and deselecting an
    interest, and the checks and file name of an avatar upload. */
module ProfileView {
  import opened Wrappers

  type InterestId = int

  // ---------------------------------------------------------------------
  // toggleInterest
  // ---------------------------------------------------------------------

  /** `prev.filter(i => i !== id)` */
  function RemoveAll(s: seq<InterestId>, id: InterestId): (r: seq<InterestId>)
    ensures id !in r
    ensures forall x :: x != id ==> multiset(r)[x] == multiset(s)[x]
    ensures |r| <= |s|
  {
    if s == [] then []
    else
      assert s == [s[0]] + s[1..];
      (if s[0] == id then [] else [s[0]]) + RemoveAll(s[1..], id)
  }

  /** The filter keeps the relative order: it distributes over
      concatenation. */
  lemma {:induction false} RemoveAllAppend(a: seq<InterestId>, b: seq<InterestId>, id: InterestId)
    ensures RemoveAll(a + b, id) == RemoveAll(a, id) + RemoveAll(b, id)
    decreases |a|
  {
    if a == [] {
      assert a + b == b;
    } else {
      assert (a + b)[0] == a[0] && (a + b)[1..] == a[1..] + b;
      RemoveAllAppend(a[1..], b, id);
    }
  }

  /** A list without `id` passes the filter unchanged. */
  lemma {:induction false} RemoveAllAbsent(s: seq<InterestId>, id: InterestId)
    requires id !in s
    ensures RemoveAll(s, id) == s
    decreases |s|
  {
    if s != [] {
      assert s[0] != id && id !in s[1..];
      RemoveAllAbsent(s[1..], id);
      assert s == [s[0]] + s[1..];
    }
  }

  /** `prev.includes(id) ? prev.filter(i => i !== id) : [...prev, id]`:
      exactly the membership of `id` flips. */
  function Toggle(prev: seq<InterestId>, id: InterestId): (next: seq<InterestId>)
    ensures forall x :: x in next <==> (if x == id then id !in prev else x in prev)
    ensures id in prev ==> next == RemoveAll(prev, id)
    ensures id !in prev ==> next == prev + [id]
  {
    if id in prev then
      var r := RemoveAll(prev, id);
      assert forall x :: x != id ==> (x in r <==> x in prev) by {
        forall x | x != id ensures x in r <==> x in prev {
          assert x in r <==> x in multiset(r);
          assert x in prev <==> x in multiset(prev);
        }
      }
      r
    else prev + [id]
  }

  /** Toggling the same id twice restores the set of selected ids; when the
      id was not selected it restores the list itself. */
  lemma ToggleTwice(prev: seq<InterestId>, id: InterestId)
    ensures forall x :: x in Toggle(Toggle(prev, id), id) <==> x in prev
    ensures id !in prev ==> Toggle(Toggle(prev, id), id) == prev
  {
    if id !in prev {
      RemoveAllAppend(prev, [id], id);
      RemoveAllAbsent(prev, id);
      assert RemoveAll([id], id) == [];
    }
  }

  // ---------------------------------------------------------------------
  // uploadAvatar
  // ---------------------------------------------------------------------

  /** `5 * 1024 * 1024` bytes */
  const MaxAvatarBytes: nat := 5 * 1024 * 1024

  const ImagePrefix := "image/"

  /** The selected file: its name, MIME type and size in bytes. */
  datatype AvatarFile = AvatarFile(name: string, mimeType: string, size: nat)

  datatype UploadCheck =
    | NoFile                    // nothing selected: return without a message
    | NotAnImage                // 'Please select an image file'
    | TooLarge                  // 'File size must be less than 5MB'
    | UploadAs(path: string)    // go on to store the file under this path

  /** The decimal digits of a whole number, as a template literal renders
      `Date.now()`. */
  function Decimal(n: nat): (s: string)
    ensures |s| >= 1
    ensures forall c :: c in s ==> '0' <= c <= '9'
  {
    if n < 10 then [Digit(n)] else Decimal(n / 10) + [Digit(n % 10)]
  }

  function Digit(d: nat): (c: char)
    requires d < 10
    ensures '0' <= c <= '9'
  {
    "0123456789"[d]
  }

  /** Reading the digits back, the inverse of `Decimal`. */
  function DecimalValue(s: string): nat
  {
    if s == [] then 0
    else
      var c := s[|s| - 1];
      DecimalValue(s[..|s| - 1]) * 10 + (if '0' <= c <= '9' then (c as int) - ('0' as int) else 0)
  }

  lemma {:induction false} DecimalRoundTrip(n: nat)
    ensures DecimalValue(Decimal(n)) == n
  {
    if n >= 10 {
      DecimalRoundTrip(n / 10);
      var s := Decimal(n);
      assert s[..|s| - 1] == Decimal(n / 10);
    }
  }

  /** `name.split('.').pop()`: the text after the last dot, or the whole
      name when it has no dot. */
  function Extension(name: string): (ext: string)
    ensures '.' !in ext
    ensures |ext| <= |name| && ext == name[|name| - |ext|..]
    ensures '.' !in name ==> ext == name
    ensures '.' in name ==> |ext| < |name| && name[|name| - |ext| - 1] == '.'
  {
    if name == [] then []
    else if name[|name| - 1] == '.' then []
    else
      var init := name[..|name| - 1];
      assert name == init + [name[|name| - 1]];
      assert '.' in init <==> '.' in name;
      Extension(init) + [name[|name| - 1]]
  }

  /** `${userId}-${Date.now()}.${fileExt}` */
  function AvatarPath(userId: string, now: nat, name: string): string
  {
    userId + "-" + Decimal(now) + "." + Extension(name)
  }

  /** The extension survives into the stored path: splitting the path at
      its last dot gives the file's extension back. */
  lemma AvatarPathExtension(userId: string, now: nat, name: string)
    ensures Extension(AvatarPath(userId, now, name)) == Extension(name)
  {
    ExtensionAfterDot(userId + "-" + Decimal(now), Extension(name));
  }

  /** The stored path starts with the user's id and a dash. */
  lemma AvatarPathOwner(userId: string, now: nat, name: string)
    ensures AvatarPath(userId, now, name)[..|userId| + 1] == userId + "-"
  {
    var owner := userId + "-";
    var rest := Decimal(now) + "." + Extension(name);
    assert AvatarPath(userId, now, name) == owner + rest;
    assert (owner + rest)[..|owner|] == owner;
  }

  lemma {:induction false} ExtensionAfterDot(prefix: string, ext: string)
    requires '.' !in ext
    ensures Extension(prefix + "." + ext) == ext
    decreases |ext|
  {
    var s := prefix + "." + ext;
    if ext == [] {
      assert s[|s| - 1] == '.';
    } else {
      var init := ext[..|ext| - 1];
      assert s[..|s| - 1] == prefix + "." + init;
      assert s[|s| - 1] == ext[|ext| - 1];
      assert '.' !in init by {
        assert forall c :: c in init ==> c in ext;
      }
      ExtensionAfterDot(prefix, init);
      assert ext == init + [ext[|ext| - 1]];
    }
  }

  /** The checks `uploadAvatar` makes before storing the file, in order. */
  function CheckUpload(file: Option<AvatarFile>, userId: string, now: nat): (r: UploadCheck)
    ensures r == NoFile <==> file.None?
    ensures r == NotAnImage <==> file.Some? && !(ImagePrefix <= file.value.mimeType)
    ensures r == TooLarge <==>
      file.Some? && ImagePrefix <= file.value.mimeType && file.value.size > MaxAvatarBytes
    ensures r.UploadAs? <==>
      file.Some? && ImagePrefix <= file.value.mimeType && file.value.size <= MaxAvatarBytes
    ensures r.UploadAs? ==> r.path == AvatarPath(userId, now, file.value.name)
  {
    match file
    case None => NoFile
    case Some(f) =>
      if !(ImagePrefix <= f.mimeType) then NotAnImage
      else if f.size > MaxAvatarBytes then TooLarge
      else UploadAs(AvatarPath(userId, now, f.name))
  }

  /** The size limit is inclusive: a file of exactly 5 MiB is stored, one
      byte more is refused. */
  lemma SizeLimitInclusive(name: string, userId: string, now: nat)
    ensures CheckUpload(Some(AvatarFile(name, "image/png", 5242880)), userId, now).UploadAs?
    ensures CheckUpload(Some(AvatarFile(name, "image/png", 5242881)), userId, now) == TooLarge
  {
  }
}
