/** The import lookup in an image as linker and loader left it in memory. */
module LoadedImage {
  import opened Words
  import opened ImportTable

  // ---------------------------------------------------------------- what is in memory

  /** What a library is imported for: functions by name or by ordinal. */
  datatype Function = ByName(name: Name) | ByOrdinal(ordinal: nat)

  datatype Import = Import(dll: Name, functions: seq<Function>)

  /** A name table: a named function has there the offset of a two-byte hint with the name behind it,
      one imported by ordinal the ordinal and the top bit. */
  ghost predicate IsNameTable(image: Image, thunks: seq<word>, functions: seq<Function>)
  {
    && |thunks| == |functions|
    && forall k | 0 <= k < |thunks| ::
         match functions[k]
         case ByName(name) =>
           var at := Wrap(image.base + thunks[k] + 2);
           thunks[k] < 0x8000_0000 && at != 0 && image.strings(at) == name
         case ByOrdinal(ordinal) => ordinal < 0x1_0000 && thunks[k] == 0x8000_0000 + ordinal
  }

  /** One library in memory: a descriptor inside the image, the library's name where it points, and
      the table of names where OriginalFirstThunk points, or FirstThunk if there is no other. Unless
      nothing is imported, the table at FirstThunk is not empty. */
  ghost predicate Describes(image: Image, d: Descriptor, library: Import)
  {
    && image.base + image.sizeOfImage < WORD_LIMIT
    && 0 < d.name < image.sizeOfImage && 0 < d.firstThunk < image.sizeOfImage
    && d.originalFirstThunk < image.sizeOfImage
    && image.strings(image.base + d.name) == library.dll
    && (d.originalFirstThunk != 0 ==> IsNameTable(image, image.thunks(d.originalFirstThunk), library.functions))
    && (d.originalFirstThunk == 0 ==> IsNameTable(image, image.thunks(d.firstThunk), library.functions))
    && (image.thunks(d.firstThunk) == [] ==> library.functions == [])
  }

  ghost predicate IsImage(image: Image, ds: seq<Descriptor>, libraries: seq<Import>)
  {
    |ds| == |libraries| && forall i | 0 <= i < |ds| :: Describes(image, ds[i], libraries[i])
  }

  /** What the loader did: the word of memory at each place of the table at FirstThunk is the address it
      resolved for the function of that index. */
  ghost predicate IsBound(image: Image, words: word -> word, ds: seq<Descriptor>, libraries: seq<Import>,
                          resolve: (Name, Function) -> word)
  {
    && |ds| == |libraries|
    && forall i, k | 0 <= i < |ds| && 0 <= k < |libraries[i].functions| ::
         words(Wrap(image.base + ds[i].firstThunk + 4 * k)) == resolve(libraries[i].dll, libraries[i].functions[k])
  }

  // ---------------------------------------------------------------- what should be found

  predicate Asked(f: Function, hash: bv32)
  {
    f.ByName? && HashFrom(0, f.name) == hash
  }

  /** The first function from `k` on whose name has the hash. */
  function FirstAsked(functions: seq<Function>, hash: bv32, k: nat): (r: Option<nat>)
    requires k <= |functions|
    ensures r.Some? ==> k <= r.value < |functions| && Asked(functions[r.value], hash)
    ensures forall i | k <= i < (if r.Some? then r.value else |functions|) :: !Asked(functions[i], hash)
    decreases |functions| - k
  {
    if k == |functions| then None else if Asked(functions[k], hash) then Some(k) else FirstAsked(functions, hash, k + 1)
  }

  /** A place among the imports: library and function. */
  datatype Place = Place(library: nat, member: nat)

  /** The first function with the hash in the first library that has one. */
  function Anywhere(libraries: seq<Import>, hash: bv32, i: nat): (r: Option<Place>)
    requires i <= |libraries|
    ensures r.Some? ==> && i <= r.value.library < |libraries|
                        && FirstAsked(libraries[r.value.library].functions, hash, 0) == Some(r.value.member)
    decreases |libraries| - i
  {
    if i == |libraries| then None
    else match FirstAsked(libraries[i].functions, hash, 0)
      case Some(k) => Some(Place(i, k))
      case None => Anywhere(libraries, hash, i + 1)
  }

  /** The first one in the first library of that name from which anything is imported. */
  function InLibrary(libraries: seq<Import>, same: Name -> bool, hash: bv32, i: nat): (r: Option<Place>)
    requires i <= |libraries|
    ensures r.Some? ==> && i <= r.value.library < |libraries| && same(libraries[r.value.library].dll)
                        && FirstAsked(libraries[r.value.library].functions, hash, 0) == Some(r.value.member)
    decreases |libraries| - i
  {
    if i == |libraries| then None
    else if libraries[i].functions != [] && same(libraries[i].dll) then
      match FirstAsked(libraries[i].functions, hash, 0)
      case Some(k) => Some(Place(i, k))
      case None => None
    else InLibrary(libraries, same, hash, i + 1)
  }

  /** The address of a place in the tables at FirstThunk. */
  function AddressOfPlace(image: Image, ds: seq<Descriptor>, p: Option<Place>): Option<word>
    requires p.Some? ==> p.value.library < |ds|
  {
    match p
    case None => None
    case Some(Place(i, k)) => Some(Wrap(image.base + ds[i].firstThunk + 4 * k))
  }

  // ---------------------------------------------------------------- what is found

  /** The walk passes over a library exactly if nothing is imported from it. */
  lemma VisitedIfUsed(image: Image, d: Descriptor, library: Import)
    requires Describes(image, d, library)
    ensures !EndsTable(d)
    ensures Skipped(image, d) || OriginalThunks(image, d) == [] <==> library.functions == []
    ensures |OriginalThunks(image, d)| == |library.functions|
    ensures image.strings(DllName(image, d)) == library.dll
  {
  }

  lemma HitIsAsked(image: Image, d: Descriptor, library: Import, hash: bv32, k: nat)
    requires Describes(image, d, library) && k < |library.functions| == |OriginalThunks(image, d)|
    ensures Hit(image, OriginalThunks(image, d)[k], hash) <==> Asked(library.functions[k], hash)
  {
  }

  lemma {:induction false} FirstHitIsAsked(image: Image, d: Descriptor, library: Import, hash: bv32, k: nat)
    requires Describes(image, d, library) && k <= |library.functions| == |OriginalThunks(image, d)|
    ensures FirstHit(image, d, hash, k) == FirstAsked(library.functions, hash, k)
    decreases |library.functions| - k
  {
    hide Describes, OriginalThunks, Hit, Asked;
    if k < |library.functions| {
      HitIsAsked(image, d, library, hash, k);
      FirstHitIsAsked(image, d, library, hash, k + 1);
    }
  }

  /** Without a library name, the lookup finds the slot of the first function with the hash. */
  lemma {:induction false} FindsAnywhere(image: Image, ds: seq<Descriptor>, libraries: seq<Import>, hash: bv32, i: nat)
    requires IsImage(image, ds, libraries) && i <= |ds|
    ensures FirstSlot(image, Visited(image, ds[i..]), hash) == AddressOfPlace(image, ds, Anywhere(libraries, hash, i))
    decreases |ds| - i
  {
    hide Describes, OriginalThunks, Hit, Asked, EndsTable, Skipped;
    if i < |ds| {
      var d, rest := ds[i], Visited(image, ds[i + 1..]);
      assert Describes(image, d, libraries[i]);
      VisitedIfUsed(image, d, libraries[i]);
      FirstHitIsAsked(image, d, libraries[i], hash, 0);
      FindsAnywhere(image, ds, libraries, hash, i + 1);
      assert ds[i..][0] == d && ds[i..][1..] == ds[i + 1..];
      assert ([d] + rest)[0] == d && ([d] + rest)[1..] == rest;
      assert [] + rest == rest;
    }
  }

  /** With one, and with no two libraries sharing one copy of a name, it finds the slot of the first
      function with the hash in the first used library of that name. */
  lemma {:induction false} FindsInLibrary(image: Image, ds: seq<Descriptor>, libraries: seq<Import>,
                                          same: Name -> bool, hash: bv32, i: nat)
    requires IsImage(image, ds, libraries) && i <= |ds|
    requires forall a, b | 0 <= a < b < |ds| :: ds[a].name != ds[b].name
    ensures FirstSlot(image, Searched(image, Visited(image, ds[i..]), Some(same)), hash)
         == AddressOfPlace(image, ds, InLibrary(libraries, same, hash, i))
    decreases |ds| - i
  {
    hide Describes, OriginalThunks, Hit, Asked, EndsTable, Skipped, FirstHit;
    if i < |ds| {
      var d, rest := ds[i], Visited(image, ds[i + 1..]);
      assert Describes(image, d, libraries[i]);
      VisitedIfUsed(image, d, libraries[i]);
      FirstHitIsAsked(image, d, libraries[i], hash, 0);
      FindsInLibrary(image, ds, libraries, same, hash, i + 1);
      assert ds[i..][0] == d && ds[i..][1..] == ds[i + 1..];
      assert ([d] + rest)[0] == d && ([d] + rest)[1..] == rest;
      assert [] + rest == rest;
      if libraries[i].functions != [] && same(libraries[i].dll) {
        OtherNames(image, ds, libraries, i, i + 1);
        assert SamePointer(image, [d] + rest, DllName(image, d)) == [d];
        assert [d][1..] == [];
      }
    }
  }

  /** No library further on has the name at the same place. */
  lemma {:induction false} OtherNames(image: Image, ds: seq<Descriptor>, libraries: seq<Import>, i: nat, j: nat)
    requires IsImage(image, ds, libraries) && i < j <= |ds|
    requires forall a, b | 0 <= a < b < |ds| :: ds[a].name != ds[b].name
    ensures SamePointer(image, Visited(image, ds[j..]), DllName(image, ds[i])) == []
    decreases |ds| - j
  {
    hide OriginalThunks, Skipped;
    if j < |ds| {
      assert Describes(image, ds[i], libraries[i]) && Describes(image, ds[j], libraries[j]);
      NamesApart(image, ds[i], libraries[i], ds[j], libraries[j]);
      OtherNames(image, ds, libraries, i, j + 1);
      assert ds[j..][0] == ds[j] && ds[j..][1..] == ds[j + 1..];
      var rest := Visited(image, ds[j + 1..]);
      assert ([ds[j]] + rest)[0] == ds[j];
      assert [] + rest == rest;
    }
  }

  lemma NamesApart(image: Image, a: Descriptor, la: Import, b: Descriptor, lb: Import)
    requires Describes(image, a, la) && Describes(image, b, lb) && a.name != b.name
    ensures DllName(image, a) != DllName(image, b)
  {
  }

  /** In memory as the loader left it, the word at the address the lookup finds is the one resolved
      for a function with the hash asked for, in a library of the name asked for. */
  lemma FoundSlotIsBound(image: Image, words: word -> word, libraries: seq<Import>, resolve: (Name, Function) -> word,
                         dllName: Option<Name -> bool>, hash: bv32)
    requires IsImage(image, image.descriptors, libraries)
    requires IsBound(image, words, image.descriptors, libraries, resolve)
    requires forall a, b | 0 <= a < b < |image.descriptors| :: image.descriptors[a].name != image.descriptors[b].name
    ensures var found := FirstSlot(image, Searched(image, Visited(image, image.descriptors), dllName), hash);
            found.Some? ==>
              exists i, k | 0 <= i < |libraries| && 0 <= k < |libraries[i].functions| ::
                && Asked(libraries[i].functions[k], hash)
                && (dllName.Some? ==> dllName.value(libraries[i].dll))
                && words(found.value) == resolve(libraries[i].dll, libraries[i].functions[k])
  {
    hide IsImage, Visited, Searched, FirstSlot, Asked;
    var ds := image.descriptors;
    ImageSize(image, ds, libraries);
    assert ds[0..] == ds;
    var place;
    match dllName {
      case None =>
        FindsAnywhere(image, ds, libraries, hash, 0);
        place := Anywhere(libraries, hash, 0);
        NoNameSearchesAll(image, Visited(image, ds));
      case Some(same) =>
        FindsInLibrary(image, ds, libraries, same, hash, 0);
        place := InLibrary(libraries, same, hash, 0);
    }
    if place.Some? {
      var Place(i, k) := place.value;
      assert Asked(libraries[i].functions[k], hash);
    }
  }

  lemma ImageSize(image: Image, ds: seq<Descriptor>, libraries: seq<Import>)
    requires IsImage(image, ds, libraries)
    ensures |ds| == |libraries|
  {
  }

  lemma NoNameSearchesAll(image: Image, ds: seq<Descriptor>)
    ensures Searched(image, ds, None) == ds
  {
  }

  // ---------------------------------------------------------------- the end of the table, damaged images

  /** A descriptor without a name or without a table of addresses ends the table: nothing behind it is
      looked at. */
  lemma {:induction false} TableEnds(image: Image, before: seq<Descriptor>, d: Descriptor, behind: seq<Descriptor>)
    requires d.name == 0 || d.firstThunk == 0
    ensures Visited(image, before + [d] + behind) == Visited(image, before)
    decreases |before|
  {
    hide Skipped, OriginalThunks;
    var ds := before + [d] + behind;
    if before == [] {
      assert ds[0] == d;
    } else {
      assert ds[0] == before[0] && ds[1..] == before[1..] + [d] + behind;
      TableEnds(image, before[1..], d, behind);
    }
  }

  /** The descriptors passed over, by their offsets alone, in an image that does not wrap around: those
      whose table of addresses begins behind the image or is empty, and those whose table of names or
      library name does not begin inside it. */
  lemma SkippedByOffsets(image: Image, d: Descriptor)
    requires image.base + image.sizeOfImage < WORD_LIMIT
    requires image.base + d.name < WORD_LIMIT && image.base + d.firstThunk < WORD_LIMIT
    requires image.base + d.originalFirstThunk < WORD_LIMIT
    ensures !Skipped(image, d)
            <==> && d.firstThunk <= image.sizeOfImage && image.thunks(d.firstThunk) != []
                 && d.name < image.sizeOfImage
                 && (d.originalFirstThunk != 0 ==> d.originalFirstThunk < image.sizeOfImage)
                 && (d.originalFirstThunk == 0 ==> d.firstThunk < image.sizeOfImage)
  {
  }
}
