# ConfigUtil in Dafny

A functional model of ConfigUtil, a small reflection-driven library. It
copies configuration objects and sends them over a Netty `ByteBuf`, with
proofs about the model. The model has three engines and a facade:

- **Field selection** (`StreamUtil`, `Fields`).
  - The superclass walk goes from a class up to, but not including, `java.lang.Object`.
  - The declared fields of each level are concatenated, most-derived class first.
  - Static fields are dropped, then the optional field predicate is applied.
  - The result is stably sorted by field name, in `String.compareTo` order (UTF-16 code units).
  - `forEachUnchecked` is a first-failure-wins loop. A failure of the declared type is rethrown as it is; any other failure is wrapped in `UnknownException`.
- **Binary codec** (`ByteBufUtil`).
  - Every value position starts with a presence byte.
  - A non-null value then continues with one of:
    - the registered serializer's bytes;
    - for an array, a 4-byte big-endian length and the elements;
    - for an object, its selected fields in name order.
  - The serializer registry is consulted before the array check.
  - Primitive fields and primitive array components are raw. They have no presence byte and the registry is never consulted for them.
  - Strings are an `int` count of UTF-8 bytes (section 3 of RFC 3629), followed by those bytes.
  - Reading mirrors writing:
    - An object is read into the destination when one is given, otherwise into a new instance.
    - A nested object field is read into that field's current value.
    - Arrays are always fresh. Their elements are read with no destination.
- **Deep copy** (`CopyUtil`).
  - `null` copies to `null`.
  - Values of primitive and immutable types are shared. Immutability is checked before the array check.
  - Arrays are always fresh, and their elements get no destination.
  - Objects are filled in place into the destination when there is one. A nested object field is copied into that field's current value.
- **Facade** (`ConfigUtil`).
  - `@Sync` becomes a flag on each field declaration.
  - `copyClientSettings` copies the fields without `@Sync`.
  - `copyAllSettings` copies every instance field.
  - `writeServerSettings` and `readServerSettings` send the fields with `@Sync`.
  - Each facade method drops its result. Its effect is therefore modelled as the state it leaves the destination in, or the bytes it appends.

Java reflection becomes an explicit class table (`Reflect.ClassTable`): each
class has its superclass, its declared fields, and the state its no-argument
constructor produces. Values are finite trees (`Reflect.Val`). An object maps
each of its fields to a value. A field is identified by its declaring class
together with its declaration, so a subclass field that shadows a superclass
field of the same name is a different field. Java exceptions become
`Lang.Failure` values inside `Lang.Result`.

The engines take the field traversal as a parameter (`Fields.Traversal`, a
function from class name to its selected fields). The facade entry points
instantiate it with `Fields.StreamFields(ct, predicate)`, which is exactly
`streamFields(type, predicate)`. Both engines share this one definition.
The source has two identical copies of it.

The central theorem is `RoundTrip.DecodeEncode`. It holds when every
registered serializer reads back what it writes, and when the serializer
registry and the immutable-class set agree on the reference types. Under
those conditions, reading back the encoding of `v` into a destination `d`
gives the same result as copying `v` into `d`, failures included, and stops
exactly at the end of the encoding. `CopyUtil.CopyReproduces` says that a
copy reproduces every value that fits its destination. Together they give
the round trip of the codec test (`RoundTrip.WriteRead`) and the server
settings round trip of the facade (`ConfigUtil.ServerSettingsRoundTrip`).

`streamDeclaredFields` (src/main/java/meldexun/configutil/StreamUtil.java:21-23)
does no deduplication. A field shadowed by a subclass field of the same name
is visited as a field of its own. `StreamUtil.DeclaredFieldsShape` states this.

Some members are plain definitions of the abstraction and carry no row of
their own:
- `StreamUtil.Escape` is the exception translation of forEachUnchecked. `StreamUtil.FirstFailureWins` states its effect.
- `Fields.StreamFields` is the traversal streamFields induces. `Fields.SelectedFields` states it.
- `Reflect.GetField` is `Field.get`. `Reflect.GetAfterSet` and `Reflect.SetWhatGetGives` relate it to `Field.set`.
- `CopyUtil.RegisterImmutableClass` adds a class to the immutable set. `CopyUtil.RegisteredIsShared` and `CopyUtil.RegisterKeepsShared` state what that does to copies.

## Model

| member | source | states |
|---|---|---|
| StreamUtil.Walk | src/main/java/meldexun/configutil/StreamUtil.java:9-15 | the hierarchy is empty exactly for Object; otherwise it starts at the class itself, each element's superclass is the next element, the last one's superclass is Object, Object never appears and no class appears twice |
| StreamUtil.HierarchyOfSuperclass | src/main/java/meldexun/configutil/StreamUtil.java:13-15 | the hierarchy of a class is the class followed by the hierarchy of its superclass |
| StreamUtil.DeclaredFieldsShape | src/main/java/meldexun/configutil/StreamUtil.java:21-23 | the declared fields are the class's own fields followed by its superclass's; their count is the sum over the hierarchy (nothing merged by name); a field is present exactly when a class of the hierarchy declares it |
| StreamUtil.DeclaredFieldsNoDup | src/main/java/meldexun/configutil/StreamUtil.java:21-23 | in a class table where no class declares a field twice, no field is visited twice |
| StreamUtil.ForEachUnchecked | src/main/java/meldexun/configutil/StreamUtil.java:26-42 | every failure that escapes the loop is of the declared type or an UnknownException |
| StreamUtil.ForEachAppend | src/main/java/meldexun/configutil/StreamUtil.java:28-38 | running over xs + ys is running over xs, then over ys from the state xs left, unless xs failed |
| StreamUtil.FirstFailureWins | src/main/java/meldexun/configutil/StreamUtil.java:29-41 | the first failing element decides the outcome and later elements are never reached; its failure comes out unchanged when it is of the declared type, and wrapped once in UnknownException otherwise |
| StreamUtil.ForEachNeverFailing | src/main/java/meldexun/configutil/StreamUtil.java:28-38 | an action that never fails is applied to every element in stream order |
| Fields.SortByName | src/main/java/meldexun/configutil/ByteBufUtil.java:285 | the sort is a permutation (same multiset) and orders fields by name |
| Fields.SortStable | src/main/java/meldexun/configutil/CopyUtil.java:151 | fields of equal name keep their stream order, most-derived first |
| Fields.Keep | src/main/java/meldexun/configutil/CopyUtil.java:146-150 | a field survives the filters exactly when it is in the stream, not static, and accepted by the predicate (or there is none) |
| Fields.SelectedFields | src/main/java/meldexun/configutil/ByteBufUtil.java:279-287 | streamFields succeeds exactly when the walk does, is sorted by name, and holds exactly the declared non-static fields the predicate accepts |
| Fields.SelectedFieldsNoDup | src/main/java/meldexun/configutil/CopyUtil.java:145-153 | in a well-formed class table the traversal visits each selected field once |
| Fields.StreamFieldsNoRepeats | src/main/java/meldexun/configutil/CopyUtil.java:145-153 | in a well-formed class table the traversal the engines see never visits a field twice, for any class |
| Reflect.NewInstance | src/main/java/meldexun/configutil/CopyUtil.java:112 | Class.newInstance gives an object of the requested class, and succeeds exactly for Object and for classes with a usable no-argument constructor |
| Reflect.GetAfterSet | src/main/java/meldexun/configutil/CopyUtil.java:141 | after Field.set, Field.get of that field gives the value set, every other field reads as before, and the set fields are still the readable ones |
| Reflect.SetWhatGetGives | src/main/java/meldexun/configutil/CopyUtil.java:141 | setting a field to the value Field.get gives leaves the object as it was |
| Reflect.SetField | src/main/java/meldexun/configutil/CopyUtil.java:125-141 | Field.set succeeds exactly on an object that has the field, sets it, and changes nothing else |
| Reflect.RuntimeType | src/main/java/meldexun/configutil/CopyUtil.java:54 | getClass() of a value is never a primitive type |
| Buffer.FromToBigEndian | src/main/java/meldexun/configutil/ByteBufUtil.java:28-30 | an unsigned big-endian word (char, float and double bits) reads back as the value written |
| Buffer.ReadWriteSigned | src/main/java/meldexun/configutil/ByteBufUtil.java:24-27 | a two's complement word (byte, short, int, long) reads back as the value written |
| Buffer.ReadWriteInt | src/main/java/meldexun/configutil/ByteBufUtil.java:213 | a length prefix reads back as the length written, whatever follows it |
| Utf8.DecodeEncode | src/main/java/meldexun/configutil/ByteBufUtil.java:46-54 | decoding the UTF-8 form of a string gives the string back |
| Utf8.EncodeDecode | src/main/java/meldexun/configutil/ByteBufUtil.java:52-54 | a byte sequence the decoder accepts is exactly the UTF-8 form of what it decodes to |
| ByteBufUtil.WritePrim | src/main/java/meldexun/configutil/ByteBufUtil.java:23-30 | a primitive is written in its fixed width, and only values of that primitive type are accepted |
| ByteBufUtil.ReadPrim | src/main/java/meldexun/configutil/ByteBufUtil.java:23-30 | a primitive read succeeds exactly when enough bytes remain, takes exactly its width and yields a value of the type |
| ByteBufUtil.ReadWritePrim | src/main/java/meldexun/configutil/ByteBufUtil.java:23-30 | every primitive reads back as written, taking exactly the bytes written |
| ByteBufUtil.ReadBooleanNonZero | src/main/java/meldexun/configutil/ByteBufUtil.java:193 | any non-zero byte reads as true |
| ByteBufUtil.WriteString | src/main/java/meldexun/configutil/ByteBufUtil.java:46-50 | a string is written as the count of its UTF-8 bytes (not of its chars), then those bytes |
| ByteBufUtil.ReadString | src/main/java/meldexun/configutil/ByteBufUtil.java:52-54 | a string read consumes the int count and exactly that many further bytes, and the UTF-8 form of the string read is those bytes; it succeeds exactly when the count is non-negative, that many bytes remain and they decode; a short buffer or a bad count fails with IndexOutOfBounds |
| ByteBufUtil.ReadWriteString | src/main/java/meldexun/configutil/ByteBufUtil.java:46-54 | every string reads back as written, taking exactly the bytes written |
| ByteBufUtil.RegisterSerializer | src/main/java/meldexun/configutil/ByteBufUtil.java:56-74 | each listed type gets the new serializer, replacing any earlier one; every other entry is kept |
| ByteBufUtil.BuiltinsShape | src/main/java/meldexun/configutil/ByteBufUtil.java:21-32 | the static initializer registers exactly the primitives, their wrappers and String, and each of those serializers reads back what it writes |
| ByteBufUtil.RegisterKeepsLawful | src/main/java/meldexun/configutil/ByteBufUtil.java:56-74 | registering a serializer that reads back what it writes keeps that true of the whole registry |
| ByteBufUtil.Encode | src/main/java/meldexun/configutil/ByteBufUtil.java:91-110 | null is the single byte 0; anything else starts with 1; a registered type (arrays included) is the serializer's bytes; an unregistered array carries its length in the next four bytes |
| ByteBufUtil.PrimitivesIgnoreRegistry | src/main/java/meldexun/configutil/ByteBufUtil.java:124-178 | primitive fields and components are written and read raw, whatever the registry holds |
| ByteBufUtil.EncodeFieldsLoop | src/main/java/meldexun/configutil/ByteBufUtil.java:147-153 | writeObject's loop is forEachUnchecked over the selected fields, appending each field's bytes |
| ByteBufUtil.Decode | src/main/java/meldexun/configutil/ByteBufUtil.java:191-219 | a read always consumes at least one byte; a 0 presence byte reads null after that byte alone; an unregistered array fails on a short input or a negative length and otherwise has the component type and the decoded length; an object read into a destination keeps its class and fields and changes only the fields the traversal visits |
| ByteBufUtil.DecodeElems | src/main/java/meldexun/configutil/ByteBufUtil.java:210-219 | reading an array's elements yields exactly the decoded count of elements and never consumes more than is there |
| ByteBufUtil.DecodeElemsEach | src/main/java/meldexun/configutil/ByteBufUtil.java:215-241 | element j of an array read is what a read of the component type gives at the point where element j-1's bytes end: raw for a primitive component, otherwise through read with a null destination |
| ByteBufUtil.DecodeArrayIgnoresDest | src/main/java/meldexun/configutil/ByteBufUtil.java:197-206 | an array read gives the same result whatever the destination, since only readObject uses it |
| ByteBufUtil.DecodeFields | src/main/java/meldexun/configutil/ByteBufUtil.java:244-252 | the object keeps its class and fields, fields outside the traversal keep their values, and failures escape as forEachUnchecked lets them |
| ByteBufUtil.DecodeFieldsLoop | src/main/java/meldexun/configutil/ByteBufUtil.java:244-252 | readObject's loop is forEachUnchecked over the selected fields, threading the object and the cursor |
| ByteBufUtil.ReadField | src/main/java/meldexun/configutil/ByteBufUtil.java:255-277 | only the field read changes; a primitive field is read raw; any other is read with the field's current value as the destination |
| ByteBufUtil.Write | src/main/java/meldexun/configutil/ByteBufUtil.java:82-89 | a written value starts with a presence byte that is 0 exactly when the value is null; null is that byte alone and reads back as null whatever type and destination the read is given, leaving the rest of the buffer; anything else is written as its runtime class |
| ByteBufUtil.ReadInto | src/main/java/meldexun/configutil/ByteBufUtil.java:186-189 | a read into a null destination fails with NullPointer; a read consumes at least one byte; an object read into a destination of an unregistered class fills that destination, keeping its class and fields |
| CopyUtil.BuiltinImmutablesShape | src/main/java/meldexun/configutil/CopyUtil.java:16-27 | the built-in immutable classes are exactly the eight wrappers and String |
| CopyUtil.RegisteredIsShared | src/main/java/meldexun/configutil/CopyUtil.java:29-35 | after registerImmutableClass(t), a copy as t returns src itself for any src and destination, and so does copy(src, dest) of a value whose runtime class is t |
| CopyUtil.RegisterKeepsShared | src/main/java/meldexun/configutil/CopyUtil.java:29-35 | a type that was shared before a registration is still shared after it |
| CopyUtil.Copy | src/main/java/meldexun/configutil/CopyUtil.java:57-72 | null copies to null; a primitive or immutable type shares src; an array copy is a fresh array of the component type and the same length; an object copied into dest keeps dest's class and fields and changes only visited fields; without dest it is a new instance of the type |
| CopyUtil.CopyElems | src/main/java/meldexun/configutil/CopyUtil.java:75-84 | an array copy has exactly as many elements as the source, element j being the copy of source element j (as it is for a primitive component, otherwise with the component type and a null destination); it succeeds exactly when every element's copy does |
| CopyUtil.CopyFields | src/main/java/meldexun/configutil/CopyUtil.java:110-118 | the object keeps its class and fields, fields outside the traversal keep their values, and failures escape as forEachUnchecked lets them |
| CopyUtil.CopyField | src/main/java/meldexun/configutil/CopyUtil.java:121-143 | only the copied field changes; a primitive field gets src's value; any other gets the copy of src's value into the destination's current value |
| CopyUtil.CopyFieldsLoop | src/main/java/meldexun/configutil/CopyUtil.java:113-116 | copyObject's loop is forEachUnchecked over the selected fields |
| CopyUtil.CopyFieldsAssigns | src/main/java/meldexun/configutil/CopyUtil.java:113-116 | with no field visited twice, each visited field ends up as copying that field alone would leave it |
| CopyUtil.CopyIntoObject | src/main/java/meldexun/configutil/CopyUtil.java:110-118 | copying into an object changes exactly the visited fields, each as copying it alone would, and keeps every other field |
| CopyUtil.CopyWithoutDest | src/main/java/meldexun/configutil/CopyUtil.java:110-112 | an object copy without a destination is a copy into a new instance, or the instantiation failure |
| CopyUtil.CopyArrayIgnoresDest | src/main/java/meldexun/configutil/CopyUtil.java:67-69 | an array copy does not depend on the destination |
| CopyUtil.CopyInto | src/main/java/meldexun/configutil/CopyUtil.java:48-55 | a null src copies to null; booleans, numbers and strings are shared; an array copy is a fresh array of the same component type and length; an object of a mutable class copied into an object fills that destination, keeping its class and fields |
| CopyUtil.CopyReproduces | src/main/java/meldexun/configutil/CopyUtil.java:57-72 | a copy of a value that fits its destination is the value itself |
| CopyUtil.CopyOfReproduces | src/test/java/meldexun/CopyTest.java:15-16 | a full copy with no destination and no predicate reproduces every value that fits a fresh instance |
| RoundTrip.BuiltinsAligned | src/main/java/meldexun/configutil/CopyUtil.java:16-27 | the two static initializers agree: the registered reference types are exactly the immutable classes |
| RoundTrip.RegisterBothAligned | src/main/java/meldexun/configutil/CopyUtil.java:29-31 | registering a class both as serializable and as immutable keeps the two in step |
| RoundTrip.DecodeEncode | src/main/java/meldexun/configutil/ByteBufUtil.java:191-207 | reading back an encoding into a destination is copying the value into it, failures included, and consumes exactly the encoding |
| RoundTrip.DecodeEncodeElems | src/main/java/meldexun/configutil/ByteBufUtil.java:210-242 | reading back an array's elements is copying them with no destination |
| RoundTrip.DecodeEncodeFields | src/main/java/meldexun/configutil/ByteBufUtil.java:244-252 | reading back an object's fields is copying them into the same object |
| RoundTrip.ReadWriteField | src/main/java/meldexun/configutil/ByteBufUtil.java:255-277 | reading back one field is copying that field |
| RoundTrip.WriteRead | src/test/java/meldexun/ByteBufTest.java:20-23 | read(type, write(v)) gives v back and stops where the write ended |
| RoundTrip.WriteReadInto | src/main/java/meldexun/configutil/ByteBufUtil.java:186-189 | reading a written value into a destination of the same class is copying it into that destination |
| ConfigUtil.SettingsPartition | src/main/java/meldexun/configutil/ConfigUtil.java:18-32 | every instance field is a client setting or a server setting and not both; static fields are neither; no predicate selects every instance field |
| ConfigUtil.TraversalsPartition | src/main/java/meldexun/configutil/ConfigUtil.java:19-31 | for every class the client and server traversals split the full traversal |
| ConfigUtil.CopySettings | src/main/java/meldexun/configutil/ConfigUtil.java:18-24 | a settings copy fails exactly when the copy does; dest is left alone unless the copy fills it in place, and then keeps its class and fields |
| ConfigUtil.CopySettingsEffect | src/main/java/meldexun/configutil/ConfigUtil.java:18-24 | a settings copy into an object changes exactly the selected fields of src's class, each copied from src, the predicate applying again below |
| ConfigUtil.CopyClientSettingsEffect | src/main/java/meldexun/configutil/ConfigUtil.java:18-20 | copyClientSettings leaves @Sync and static fields alone, takes each primitive instance field without @Sync from src, and gives each other instance field without @Sync the copy of src's value into dest's current value |
| ConfigUtil.CopyAllSettingsEffect | src/main/java/meldexun/configutil/ConfigUtil.java:22-24 | copyAllSettings leaves only static fields alone, takes each primitive instance field from src, and gives each other instance field the copy of src's value into dest's current value |
| ConfigUtil.WriteServerSettings | src/main/java/meldexun/configutil/ConfigUtil.java:26-28 | the buffer keeps what it held and gains the @Sync write of src |
| ConfigUtil.ReadServerSettings | src/main/java/meldexun/configutil/ConfigUtil.java:30-32 | a null dest fails with NullPointer; a read consumes at least one byte; dest is left alone unless it is filled in place, and then keeps its class and fields |
| ConfigUtil.ServerSettingsRoundTrip | src/main/java/meldexun/configutil/ConfigUtil.java:26-32 | reading back writeServerSettings into dest is copying the server settings into it: exactly the @Sync fields are restored, the others are untouched, and exactly the written bytes are consumed |

## Left out

- Netty `ByteBuf` internals are not modelled: allocation, capacity and the reader/writer indices. A buffer is a byte sequence. A write appends to it, and a read consumes a prefix and returns the rest. Fixed-width integers are big-endian two's complement, as `ByteBuf` stores them by default.
- `float` and `double` are carried as their raw IEEE 754 bits, as unsigned 32- and 64-bit words. There is no floating-point arithmetic in the source.
- Strings are sequences of Unicode scalar values, so unpaired surrogates cannot occur. `ByteBufUtil.ReadString` fails with `MalformedInput` on ill-formed UTF-8, where Java substitutes U+FFFD. Only the encoder's image reads back, and that is what the round trip needs.
- A string whose UTF-8 form, or an array whose length, exceeds the largest `int` is refused with `IllegalArgument`. Java cannot build such a `byte[]` or array.
- The following reflection plumbing is abstracted into the class table:
  - `setAccessible`;
  - `Modifier.isStatic`, which becomes a flag on the field declaration;
  - annotations, where `@Sync` becomes a flag on the field declaration;
  - `Array.newInstance`;
  - the typed `Field`/`Array` getters and setters.
- A cast failure inside a serializer is left to the serializer, which is an arbitrary pair of functions. The round trip assumes that every registered serializer reads back what it writes. The built-in serializers are proved to do so.
- Objects are finite trees. There is no shared heap, so aliasing and cyclic object graphs are left out. The source recurses forever on a cycle. A cycle in the superclass chain, which the JVM forbids, ends with a `StackOverflow` failure.
- When a call fails partway, Java leaves the destination partly filled. The model returns the failure and says nothing about the destination.
- When a write fails partway, Java leaves the buffer with the bytes already appended (src/main/java/meldexun/configutil/ByteBufUtil.java:147-178). `ByteBufUtil.Write` and `ConfigUtil.WriteServerSettings` return only the failure, and the buffer's partial contents are not modelled.
- An array read allocates the array before it reads any element (src/main/java/meldexun/configutil/ByteBufUtil.java:213-214). A huge length therefore fails in Java with `OutOfMemoryError`. The model has no allocation limit: it fails with `IndexOutOfBounds` at the first element that is missing from the buffer.
- The static `HashMap` and `HashSet` registries become explicit values. Registration is a function that returns the new registry. Thread safety is out of scope.
- `StreamUtil.streamFields(Class)` (`getFields`, src/main/java/meldexun/configutil/StreamUtil.java:17-19) is not part of this model, because neither engine uses it.
- For an interface, `getSuperclass()` returns null, and the walk faults with a `NullPointer` failure instead of being modelled further.
- The round trip assumes that the serializer registry and the immutable-class set name the same reference types (`RoundTrip.Aligned`). This holds for the built-ins and for classes registered both ways. A class registered on one side only is written and copied differently, and the round-trip lemmas say nothing about it.
- RoundTrip.WriteRead: stated only for values that fit, where every object's class equals its field's declared class and fields outside the traversal already hold the fresh instance's values. The source writes a field with its declared class, so a field holding a subclass instance does not come back as written.
- CopyUtil.CopyOfReproduces: stated only for values that fit, for the same reason as `RoundTrip.WriteRead`.
