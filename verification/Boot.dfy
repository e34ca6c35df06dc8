/** Booting an entry: load_and_validate_entry and the selection loop of cmdline_loop
    (src/loli.c), over a firmware whose answers are parameters. */
module Boot {
  import opened Extlinux
  import opened ExtlinuxLines
  import opened ConfigText
  import opened Menu
  import opened PrintedMenu
  import Strings

  type Handle = nat

  /** What EFI_BOOT_SERVICES.LoadImage() answers (section 7.4 of the UEFI Specification
      2.10). On a security violation the image stays loaded and has a handle. */
  datatype LoadStatus = Success | Failure | SecurityViolation

  /** What file_get_size and file_load answer for a path: byte counts, negative on errors. */
  datatype File = File(size: int, read: int)

  /** What the firmware and the file system answer during one attempt. */
  datatype Answers = Answers(files: map<string, File>, kernelPages: bool, image: LoadStatus, initrdPages: bool)
  {
    function At(path: string): File {
      if path in files then files[path] else File(-1, -1)
    }
  }

  const KERNEL: string := "kernel"
  const FDT: string := "fdt"
  const DEVICETREE: string := "devicetree"
  const INITRD: string := "initrd"
  const APPEND: string := "append"
  const FDT_HEADER_SIZE := 28

  lemma KeysArePlain()
    ensures PlainText(KERNEL) && PlainText(FDT) && PlainText(DEVICETREE) && PlainText(INITRD) && PlainText(APPEND) &&
            PlainText(TIMEOUT)
  {
  }

  // ----- the firmware -----

  /** What initrd_setup is handed: the file read and the bytes it read. */
  datatype Initrd = Initrd(path: string, size: int)

  /** `images` gives the kernel file each loaded image comes from, `fdts` the device-tree files
      installed, in order. */
  datatype State = State(images: map<Handle, string>, next: Handle, options: map<Handle, string>,
                         initrds: seq<Initrd>, fdts: seq<string>)

  ghost predicate Valid(s: State) {
    forall h | h in s.images || h in s.options :: h < s.next
  }

  class Firmware {
    /** The kernel images that are loaded, with their files. */
    var images: map<Handle, string>
    var nextHandle: Handle
    /** The terminated command line of an image. */
    var loadOptions: map<Handle, string>
    /** What initrd_setup was called with, in order. */
    var initrds: seq<Initrd>
    var fdts: seq<string>

    ghost function Abs(): State
      reads this
    {
      State(images, nextHandle, loadOptions, initrds, fdts)
    }

    /** load_efi_image: a new handle unless the image was not loaded. */
    method LoadImage(path: string, status: LoadStatus) returns (failed: bool, h: Handle)
      modifies this`images, this`nextHandle
      ensures failed == (status != Success) && h == old(nextHandle)
      ensures images == if status == Failure then old(images) else old(images)[h := path]
      ensures nextHandle == h + 1
    {
      h := nextHandle;
      nextHandle := nextHandle + 1;
      if status != Failure {
        images := images[h := path];
      }
      failed := status != Success;
    }

    method UnloadImage(h: Handle)
      modifies this`images
      ensures images == old(images) - {h}
    {
      images := images - {h};
    }

    /** setup_append. */
    method SetLoadOptions(h: Handle, append: array<char>)
      modifies this`loadOptions
      ensures loadOptions == old(loadOptions)[h := append[..]]
    {
      loadOptions := loadOptions[h := append[..]];
    }
  }

  // ----- one attempt -----

  function KernelOf(t: string, p: nat): Option<string>
    requires NoNul(t) && p <= |t|
  {
    KeysArePlain();
    ValueText(t, p, KERNEL)
  }

  /** The device tree of an entry: `fdt`, or failing that `devicetree`. */
  function FdtOf(t: string, p: nat): Option<string>
    requires NoNul(t) && p <= |t|
  {
    KeysArePlain();
    if ValueText(t, p, FDT).Some? then ValueText(t, p, FDT) else ValueText(t, p, DEVICETREE)
  }

  function InitrdOf(t: string, p: nat): Option<string>
    requires NoNul(t) && p <= |t|
  {
    KeysArePlain();
    ValueText(t, p, INITRD)
  }

  function AppendOf(t: string, p: nat): Option<string>
    requires NoNul(t) && p <= |t|
  {
    KeysArePlain();
    ValueText(t, p, APPEND)
  }

  /** The attempt gets as far as asking the firmware to load the image. */
  predicate ReachesImage(t: string, p: nat, a: Answers)
    requires NoNul(t) && p <= |t|
  {
    var kernel := KernelOf(t, p);
    kernel.Some? && a.At(kernel.value).size >= 0 && a.kernelPages && a.At(kernel.value).read >= 0
  }

  predicate FdtFits(t: string, p: nat, a: Answers)
    requires NoNul(t) && p <= |t|
  {
    var fdt := FdtOf(t, p);
    fdt.Some? ==> a.At(fdt.value).size >= FDT_HEADER_SIZE && a.At(fdt.value).read >= 0
  }

  predicate InitrdFits(t: string, p: nat, a: Answers)
    requires NoNul(t) && p <= |t|
  {
    var initrd := InitrdOf(t, p);
    initrd.Some? ==> a.At(initrd.value).size >= 0 && a.initrdPages && a.At(initrd.value).read >= 0
  }

  predicate Succeeds(t: string, p: nat, a: Answers)
    requires NoNul(t) && p <= |t|
  {
    ReachesImage(t, p, a) && a.image == Success && FdtFits(t, p, a) && InitrdFits(t, p, a)
  }

  /** The firmware loaded the image but refuses to start it. */
  predicate Refused(t: string, p: nat, a: Answers)
    requires NoNul(t) && p <= |t|
  {
    ReachesImage(t, p, a) && a.image == SecurityViolation
  }

  /** The images after an attempt has left one behind, or none. */
  function WithImage(images: map<Handle, string>, h: Handle, t: string, p: nat, left: bool): map<Handle, string>
    requires NoNul(t) && p <= |t|
  {
    var kernel := KernelOf(t, p);
    if left && kernel.Some? then images[h := kernel.value] else images
  }

  /** The device trees installed by an attempt, even one that fails after that. */
  function FdtInstalled(t: string, p: nat, a: Answers): seq<string>
    requires NoNul(t) && p <= |t|
  {
    var fdt := FdtOf(t, p);
    if FdtFits(t, p, a) && fdt.Some? then [fdt.value] else []
  }

  /** What initrd_setup is called with by an attempt that succeeds. */
  function InitrdSet(t: string, p: nat, a: Answers): seq<Initrd>
    requires NoNul(t) && p <= |t|
  {
    var initrd := InitrdOf(t, p);
    if initrd.Some? then [Initrd(initrd.value, a.At(initrd.value).read)] else []
  }

  /** The command line of an attempt that succeeds. */
  function OptionsOf(t: string, p: nat, h: Handle): map<Handle, string>
    requires NoNul(t) && p <= |t|
  {
    var append := AppendOf(t, p);
    if append.Some? then map[h := append.value + ['\0']] else map[]
  }

  /** The state after an attempt: a failed one unloads the image it had loaded, and only one
      that succeeds sets up an initrd and a command line. */
  function Attempted(s: State, t: string, p: nat, a: Answers): State
    requires NoNul(t) && p <= |t|
  {
    var ok := Succeeds(t, p, a);
    State(WithImage(s.images, s.next, t, p, ok || Refused(t, p, a)),
          s.next + if ReachesImage(t, p, a) then 1 else 0,
          s.options + if ok then OptionsOf(t, p, s.next) else map[],
          s.initrds + if ok then InitrdSet(t, p, a) else [],
          s.fdts + if ReachesImage(t, p, a) && a.image == Success then FdtInstalled(t, p, a) else [])
  }

  /** The path in a copied string. */
  function PathIn(copy: seq<char>): string
    requires copy != []
  {
    copy[..|copy| - 1]
  }

  /** load_and_validate_entry up to the loaded image. */
  method PlaceKernel(t: string, p: nat, fw: Firmware, a: Answers) returns (ok: bool, h: Handle)
    requires NoNul(t) && p <= |t|
    modifies fw`images, fw`nextHandle
    ensures ok == (ReachesImage(t, p, a) && a.image == Success)
    ensures fw.images == WithImage(old(fw.images), old(fw.nextHandle), t, p, ok || Refused(t, p, a))
    ensures fw.nextHandle == old(fw.nextHandle) + if ReachesImage(t, p, a) then 1 else 0
    ensures ok ==> h == old(fw.nextHandle)
  {
    hide ValueText, PlainText, NoNul;
    KeysArePlain();
    var kernel := MenuGetPair(t, p, KERNEL);
    if kernel == null {
      return false, 0;
    }
    var path := PathIn(kernel[..]);
    if a.At(path).size < 0 || !a.kernelPages || a.At(path).read < 0 {
      return false, 0;
    }
    var failed;
    failed, h := fw.LoadImage(path, a.image);
    ok := !failed;
  }

  /** The device tree of an entry; false leads to unload_image. */
  method PlaceFdt(t: string, p: nat, fw: Firmware, a: Answers) returns (ok: bool)
    requires NoNul(t) && p <= |t|
    modifies fw`fdts
    ensures ok == FdtFits(t, p, a)
    ensures fw.fdts == old(fw.fdts) + FdtInstalled(t, p, a)
  {
    hide ValueText, PlainText, NoNul;
    KeysArePlain();
    var fdt := MenuGetPair(t, p, FDT);
    if fdt == null {
      fdt := MenuGetPair(t, p, DEVICETREE);
    }
    if fdt != null {
      var path := PathIn(fdt[..]);
      if a.At(path).size < 0 {
        return false;
      }
      if a.At(path).size < FDT_HEADER_SIZE {
        return false;
      }
      if a.At(path).read < 0 {
        return false;
      }
      fw.fdts := fw.fdts + [path];
    }
    return true;
  }

  /** The initrd of an entry; false leads to unload_image. */
  method PlaceInitrd(t: string, p: nat, fw: Firmware, a: Answers) returns (ok: bool)
    requires NoNul(t) && p <= |t|
    modifies fw`initrds
    ensures ok == InitrdFits(t, p, a)
    ensures fw.initrds == old(fw.initrds) + if ok then InitrdSet(t, p, a) else []
  {
    hide ValueText, PlainText, NoNul;
    KeysArePlain();
    var initrd := MenuGetPair(t, p, INITRD);
    if initrd != null {
      var path := PathIn(initrd[..]);
      if a.At(path).size < 0 {
        return false;
      }
      if !a.initrdPages {
        return false;
      }
      if a.At(path).read < 0 {
        return false;
      }
      fw.initrds := fw.initrds + [Initrd(path, a.At(path).read)];
    }
    return true;
  }

  /** The command line of an entry: nothing here can fail. */
  method PlaceAppend(t: string, p: nat, fw: Firmware, h: Handle)
    requires NoNul(t) && p <= |t|
    modifies fw`loadOptions
    ensures fw.loadOptions == old(fw.loadOptions) + OptionsOf(t, p, h)
  {
    hide ValueText, PlainText, NoNul;
    KeysArePlain();
    var append := MenuGetPair(t, p, APPEND);
    if append != null {
      fw.SetLoadOptions(h, append);
    }
  }

  /** load_and_validate_entry. */
  method LoadAndValidateEntry(t: string, p: nat, fw: Firmware, a: Answers) returns (ok: bool, kernel: Handle)
    requires NoNul(t) && p <= |t| && Valid(fw.Abs())
    modifies fw
    ensures ok == Succeeds(t, p, a) && fw.Abs() == Attempted(old(fw.Abs()), t, p, a)
    ensures ok ==> kernel == old(fw.nextHandle)
  {
    hide ReachesImage, FdtFits, InitrdFits, FdtInstalled, InitrdSet, OptionsOf, KernelOf, NoNul;
    ok, kernel := PlaceKernel(t, p, fw, a);
    if !ok {
      return;
    }
    label unloadImage: {
      ok := PlaceFdt(t, p, fw, a);
      if !ok {
        break unloadImage;
      }
      ok := PlaceInitrd(t, p, fw, a);
      if !ok {
        break unloadImage;
      }
      PlaceAppend(t, p, fw, kernel);
      return;
    }
    fw.UnloadImage(kernel);
  }

  // ----- the selection loop -----

  /** One round of the loop: the line typed (none when the wait timed out), and the answers
      during the attempt it leads to. */
  datatype Event = Event(line: Option<string>, answers: Answers)

  /** wait_for_boot_entry: -2 for a timeout, -1 for a line that is no number. */
  function Selection(line: Option<string>): int {
    if line.None? then -2
    else if Strings.Number(line.value) >= 0 then Strings.Number(line.value)
    else -1
  }

  method WaitForBootEntry(line: Option<string>) returns (selected: int)
    ensures selected == Selection(line) && (line.Some? ==> selected >= -1)
  {
    if line.None? {
      return -2;
    }
    var entry := Strings.Atou(line.value);
    return if entry >= 0 then entry else -1;
  }

  /** The entry a round attempts, if any. */
  function Selected(t: string, line: Option<string>): (p: Option<nat>)
    requires NoNul(t)
    ensures p.Some? ==> p.value < |t|
  {
    var n := if line.None? then DefaultEntry(t) else Selection(line);
    if n >= 0 then Nth(AllEntries(t), n) else None
  }

  /** Which lines select the entry whose number they show. A line that is no number selects
      none; a number selects the entry of its decimal value, or none when there is no such
      entry, if and only if the value is the number of an entry or does not become one when it
      is cut to 32 bits. */
  lemma NumbersSelectTheirEntry(t: string, typed: string)
    requires NoNul(t) && |AllEntries(t)| <= Strings.TWO_31
    ensures typed == "" || !Strings.AllDigits(typed) ==> Selected(t, Some(typed)) == None
    ensures Strings.AllDigits(typed) ==> Strings.Value(typed, 10) >= 0
    ensures typed != "" && Strings.AllDigits(typed) ==>
              var value, n := Strings.Value(typed, 10), |AllEntries(t)|;
              Selected(t, Some(typed)) == Nth(AllEntries(t), value) <==> value < n || value % 0x1_0000_0000 >= n
  {
    hide AllEntries, Strings.Value;
    if Strings.AllDigits(typed) {
      Strings.ValueBound(typed);
    }
  }

  /** The digits a line begins with. */
  function LeadingDigits(s: string): string {
    if s == "" || !Strings.IsDigit(s[0]) then "" else [s[0]] + LeadingDigits(s[1..])
  }

  lemma {:induction false} DigitsThenText(s: string, rest: string)
    requires Strings.AllDigits(s) && rest != "" && !Strings.IsDigit(rest[0])
    ensures LeadingDigits(s + rest) == s
  {
    if s == "" {
      assert s + rest == rest;
    } else {
      assert (s + rest)[1..] == s[1..] + rest;
      DigitsThenText(s[1..], rest);
      assert [s[0]] + s[1..] == s;
    }
  }

  /** The number read off line `i` of the listing, when typed, selects the entry shown there. */
  lemma ShownNumberSelects(t: string, i: nat)
    requires NoNul(t) && i < |AllEntries(t)| <= Strings.TWO_31
    ensures Selected(t, Some(LeadingDigits(MenuLine(t, i)))) == Some(AllEntries(t)[i])
  {
    hide AllEntries, Strings.Text, Strings.Value, Title;
    Strings.TextMeaning(i, 10);
    Strings.AtouOfItoa(i);
    var title := Title(t, AllEntries(t)[i]);
    assert MenuLine(t, i) == Strings.Text(i, 10) + (": " + title);
    DigitsThenText(Strings.Text(i, 10), ": " + title);
  }

  /** 2^32 is read as 0: with any menu it selects entry 0, although there is no entry of that
      number. */
  lemma HugeNumberSelectsFirst(t: string)
    requires NoNul(t) && 0 < |AllEntries(t)| <= Strings.TWO_31
    ensures var typed := "4294967296";
            Strings.Value(typed, 10) == 0x1_0000_0000 && Selected(t, Some(typed)) == Some(AllEntries(t)[0]) &&
            Nth(AllEntries(t), Strings.Value(typed, 10)) == None
  {
    hide AllEntries;
    Strings.TwoTo32();
  }

  /** The round ends with a booted entry. */
  predicate Boots(t: string, e: Event)
    requires NoNul(t)
  {
    var p := Selected(t, e.line);
    p.Some? && Succeeds(t, p.value, e.answers)
  }

  /** The round leaves an image behind that the firmware refused to start. */
  predicate LeavesImage(t: string, e: Event)
    requires NoNul(t)
  {
    var p := Selected(t, e.line);
    p.Some? && Refused(t, p.value, e.answers)
  }

  function Rounded(t: string, s: State, e: Event): State
    requires NoNul(t)
  {
    var p := Selected(t, e.line);
    if p.None? then s else Attempted(s, t, p.value, e.answers)
  }

  datatype Outcome = Outcome(state: State, booted: Option<Handle>, used: nat)

  function Later(r: Outcome, n: nat): Outcome {
    r.(used := r.used + n)
  }

  /** A run of the loop over rounds, until an attempt succeeds or no more rounds come. */
  function Run(t: string, s: State, events: seq<Event>): (r: Outcome)
    requires NoNul(t)
    ensures r.used <= |events|
    decreases |events|
  {
    if events == [] then Outcome(s, None, 0)
    else if Boots(t, events[0]) then Outcome(Rounded(t, s, events[0]), Some(s.next), 1)
    else Later(Run(t, Rounded(t, s, events[0]), events[1..]), 1)
  }

  lemma RunStep(t: string, s: State, events: seq<Event>, i: nat)
    requires NoNul(t) && i < |events|
    ensures Run(t, s, events[i..]) ==
            if Boots(t, events[i]) then Outcome(Rounded(t, s, events[i]), Some(s.next), 1)
            else Later(Run(t, Rounded(t, s, events[i]), events[i + 1..]), 1)
  {
    hide Boots, Rounded;
    assert events[i..][0] == events[i] && events[i..][1..] == events[i + 1..];
  }

  /** One round of the loop. */
  method Round(t: string, fw: Firmware, e: Event, defaultEntry: nat, entryNum: nat)
    returns (ok: bool, kernel: Handle)
    requires NoNul(t) && Valid(fw.Abs()) && defaultEntry == DefaultEntry(t) && entryNum == |AllEntries(t)|
    modifies fw
    ensures ok == Boots(t, e) && fw.Abs() == Rounded(t, old(fw.Abs()), e)
    ensures ok ==> kernel == old(fw.nextHandle)
  {
    hide AllEntries, DefaultEntry, Succeeds, Attempted, Strings.Number;
    var selectedEntry := WaitForBootEntry(e.line);
    if selectedEntry < -1 {
      selectedEntry := defaultEntry;
    }
    ok, kernel := false, 0;
    if 0 <= selectedEntry < entryNum {
      var entry := MenuGetNthEntry(t, selectedEntry);
      ok, kernel := LoadAndValidateEntry(t, entry.value, fw, e.answers);
    }
  }

  /** cmdline_loop. */
  method CmdlineLoop(t: string, fw: Firmware, events: seq<Event>) returns (booted: Option<Handle>, used: nat)
    requires NoNul(t) && Valid(fw.Abs())
    modifies fw
    ensures Outcome(fw.Abs(), booted, used) == Run(t, old(fw.Abs()), events)
  {
    hide Boots, Rounded, AllEntries, DefaultEntry, Run;
    var lines, defaultEntry := ListEntries(t);
    ghost var s := fw.Abs();
    used := 0;
    assert events[0..] == events;
    while used < |events|
      invariant used <= |events| && Valid(fw.Abs())
      invariant Run(t, s, events) == Later(Run(t, fw.Abs(), events[used..]), used)
    {
      RunStep(t, fw.Abs(), events, used);
      RoundKeepsValid(t, fw.Abs(), events[used]);
      var ok, kernel := Round(t, fw, events[used], defaultEntry, |lines|);
      used := used + 1;
      if ok {
        return Some(kernel), used;
      }
    }
    NoRounds(t, fw.Abs());
    return None, used;
  }

  lemma NoRounds(t: string, s: State)
    requires NoNul(t)
    ensures Run(t, s, []) == Outcome(s, None, 0)
  {
  }

  // ----- what holds over every run -----

  lemma RoundKeepsValid(t: string, s: State, e: Event)
    requires NoNul(t) && Valid(s)
    ensures Valid(Rounded(t, s, e))
  {
    hide KernelOf, AppendOf, FdtFits, InitrdFits, Selected, InitrdSet, FdtInstalled;
  }

  /** The rounds that leave a refused image behind. */
  function Left(t: string, events: seq<Event>): nat
    requires NoNul(t)
  {
    if events == [] then 0 else (if LeavesImage(t, events[0]) then 1 else 0) + Left(t, events[1..])
  }

  /** What a round that boots hands to initrd_setup. */
  function BootInitrd(t: string, e: Event): (r: seq<Initrd>)
    requires NoNul(t)
    ensures |r| <= 1
  {
    if Boots(t, e) then InitrdSet(t, Selected(t, e.line).value, e.answers) else []
  }

  /** The command line a round that boots gives to the image. */
  function BootOptions(t: string, e: Event, h: Handle): map<Handle, string>
    requires NoNul(t)
  {
    if Boots(t, e) then OptionsOf(t, Selected(t, e.line).value, h) else map[]
  }

  /** The images of a state with or without the next handle. */
  predicate ImagesWith(before: map<Handle, string>, h: Handle, after: map<Handle, string>, one: bool) {
    h !in before && after.Keys == before.Keys + (if one then {h} else {}) &&
    |after| == |before| + (if one then 1 else 0) && forall i | i in before :: after[i] == before[i]
  }

  lemma OneMoreImage(images: map<Handle, string>, h: Handle, t: string, p: nat, left: bool)
    requires NoNul(t) && p <= |t| && h !in images && (left ==> KernelOf(t, p).Some?)
    ensures ImagesWith(images, h, WithImage(images, h, t, p, left), left)
  {
    hide KernelOf, NoNul;
    var r := WithImage(images, h, t, p, left);
    assert |r.Keys| == |r| && |images.Keys| == |images|;
  }

  lemma AttemptMeaning(s: State, t: string, p: nat, a: Answers)
    requires NoNul(t) && p <= |t| && Valid(s)
    ensures var s', ok := Attempted(s, t, p, a), Succeeds(t, p, a);
            var one := ok || Refused(t, p, a);
            ImagesWith(s.images, s.next, s'.images, one) && !(ok && Refused(t, p, a)) &&
            s.next + (if one then 1 else 0) <= s'.next &&
            s'.initrds == s.initrds + (if ok then InitrdSet(t, p, a) else []) &&
            s'.options == s.options + if ok then OptionsOf(t, p, s.next) else map[]
  {
    hide KernelOf, FdtFits, InitrdFits, InitrdSet, OptionsOf, FdtInstalled, WithImage, NoNul, ImagesWith;
    assert s.next !in s.images;
    OneMoreImage(s.images, s.next, t, p, Succeeds(t, p, a) || Refused(t, p, a));
  }

  /** A round that boots loads one image; one that does not leaves none, except an image the
      firmware refused to start, and sets up nothing. */
  lemma RoundMeaning(t: string, s: State, e: Event)
    requires NoNul(t) && Valid(s)
    ensures var s', one := Rounded(t, s, e), Boots(t, e) || LeavesImage(t, e);
            ImagesWith(s.images, s.next, s'.images, one) && !(Boots(t, e) && LeavesImage(t, e)) &&
            s.next + (if one then 1 else 0) <= s'.next &&
            s'.initrds == s.initrds + BootInitrd(t, e) && s'.options == s.options + BootOptions(t, e, s.next) &&
            (!Boots(t, e) ==> s'.initrds == s.initrds && s'.options == s.options)
  {
    hide Selected, InitrdSet, OptionsOf, Attempted, Succeeds, Refused, ImagesWith, NoNul;
    var p := Selected(t, e.line);
    if p.Some? {
      AttemptMeaning(s, t, p.value, e.answers);
    } else {
      SameImages(s);
    }
  }

  lemma SameImages(s: State)
    requires Valid(s)
    ensures ImagesWith(s.images, s.next, s.images, false)
  {
  }

  /** Over any run: the loop returns exactly when some attempt succeeds, and with the first
      that does. */
  lemma {:induction false} RunFindsFirst(t: string, s: State, events: seq<Event>)
    requires NoNul(t)
    ensures var r := Run(t, s, events);
            (r.booted.None? <==> forall i | 0 <= i < |events| :: !Boots(t, events[i])) &&
            (r.booted.None? ==> r.used == |events|) &&
            (r.booted.Some? ==> r.used > 0 && Boots(t, events[r.used - 1])) &&
            (r.booted.Some? ==> forall i | 0 <= i < r.used - 1 :: !Boots(t, events[i]))
    decreases |events|
  {
    hide Boots, Rounded;
    if events != [] && !Boots(t, events[0]) {
      var rest := events[1..];
      RunFindsFirst(t, Rounded(t, s, events[0]), rest);
      assert forall i | 1 <= i < |events| :: events[i] == rest[i - 1];
      assert forall i | 0 <= i < |rest| :: rest[i] == events[i + 1];
    }
  }

  /** Over any run: besides images the firmware refused to start, exactly the booted image is
      loaded at the end and none when nothing booted; initrd_setup is called at most once,
      and only by the round that boots, and so is the command line set. */
  lemma {:induction false} RunMeaning(t: string, s: State, events: seq<Event>)
    requires NoNul(t) && Valid(s)
    ensures var r := Run(t, s, events);
            |r.state.images| == |s.images| + Left(t, events[..r.used]) + if r.booted.Some? then 1 else 0
    ensures var r := Run(t, s, events);
            r.booted.Some? ==> r.booted.value in r.state.images && r.booted.value !in s.images
    ensures var r := Run(t, s, events);
            r.booted.None? ==> r.state.initrds == s.initrds && r.state.options == s.options
    ensures var r := Run(t, s, events);
            r.booted.Some? ==>
            r.used > 0 &&
            r.state.initrds == s.initrds + BootInitrd(t, events[r.used - 1]) &&
            r.state.options == s.options + BootOptions(t, events[r.used - 1], r.booted.value)
    decreases |events|
  {
    hide Boots, LeavesImage, Rounded, Valid, BootInitrd, BootOptions;
    if events != [] {
      var e, s', rest := events[0], Rounded(t, s, events[0]), events[1..];
      RoundMeaning(t, s, e);
      RoundKeepsValid(t, s, e);
      var r := Run(t, s, events);
      if !Boots(t, e) {
        RunMeaning(t, s', rest);
        assert events[..r.used][1..] == rest[..r.used - 1];
        assert r.used >= 2 ==> events[r.used - 1] == rest[r.used - 2];
      } else {
        assert events[..1] == [e] && [e][1..] == [];
      }
    }
  }

  // ----- an image that stays behind -----

  const REFUSED_ANSWERS := Answers(map["k" := File(1, 1)], true, SecurityViolation, false)
  const ONE_ENTRY := Config([], [Entry("a", [KeyValue(KERNEL, "k")])])

  lemma OneEntryOk()
    ensures ConfigOk(ONE_ENTRY) && KeyOk(KERNEL)
  {
  }

  lemma SelectsFirst()
    ensures Selection(Some("0")) == 0
  {
    assert "0"[..0] == "";
  }

  /** Selecting the only entry of a configuration, whose kernel the firmware loads but refuses
      to start: the attempt fails and the image stays loaded. */
  lemma RefusedImageStays(s: State)
    requires Valid(s)
    ensures NoNul(Print(ONE_ENTRY))
    ensures var r := Run(Print(ONE_ENTRY), s, [Event(Some("0"), REFUSED_ANSWERS)]);
            r.booted.None? && |r.state.images| == |s.images| + 1
  {
    hide Print, ConfigOk, KeyOk, AllEntries, Attempted, ValueText, Valid, Selection, NoNul;
    OneEntryOk();
    SelectsFirst();
    KeysArePlain();
    PrintedCount(ONE_ENTRY);
    EntryRoundTrip(ONE_ENTRY, 0, KERNEL);
    var t, e := Print(ONE_ENTRY), Event(Some("0"), REFUSED_ANSWERS);
    AllEntriesAre(t);
    assert LeavesImage(t, e) && !Boots(t, e);
    RefusedRound(t, s, e);
  }

  lemma RefusedRound(t: string, s: State, e: Event)
    requires NoNul(t) && Valid(s) && LeavesImage(t, e) && !Boots(t, e)
    ensures var r := Run(t, s, [e]); r.booted.None? && |r.state.images| == |s.images| + 1
  {
    hide LeavesImage, Boots, Rounded, Valid;
    RunMeaning(t, s, [e]);
    RunFindsFirst(t, s, [e]);
    assert [e][..1] == [e] && [e][1..] == [];
  }

  lemma AllEntriesAre(t: string)
    requires NoNul(t)
    ensures AllEntries(t) == Entries(t, Some(0))
  {
  }
}
