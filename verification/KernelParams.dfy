/** The kernel parameters that add_management_ncn.py writes and ncn_status.py reads. */
module KernelParams {
  import opened Text
  import opened Sequences

  const IFNAME := "ifname="
  const HOSTNAME := "hostname="
  const NO_WIPE := "metal.no-wipe"
  const METAL_SERVER := "metal.server"
  const IMAGES := "metal.server=s3://boot-images/"
  const ROOTFS := "/rootfs"

  /** An interface and its MAC address, in dictionary order. */
  datatype Interface = Interface(name: string, mac: string) {
    function Text(): string {
      name + ":" + mac
    }

    /** What the checks on the command line leave: no blank and no '='. */
    predicate Plain() {
      forall c :: c in Text() ==> c != ' ' && c != '='
    }
  }

  function IfTexts(macs: seq<Interface>): seq<string> {
    seq(|macs|, i requires 0 <= i < |macs| => macs[i].Text())
  }

  function IfParams(macs: seq<Interface>): seq<string> {
    seq(|macs|, i requires 0 <= i < |macs| => IFNAME + macs[i].Text())
  }

  /** What becomes of one parameter of the donor. */
  function Adapt(param: string, alias: string, isFmn: bool, image: string): seq<string> {
    if HOSTNAME <= param then [HOSTNAME + alias]
    else if IFNAME <= param then []
    else if NO_WIPE <= param then ["metal.no-wipe=0"]
    else if isFmn && METAL_SERVER <= param then [IMAGES + image + ROOTFS]
    else [param]
  }

  function AdaptAll(donor: seq<string>, alias: string, isFmn: bool, image: string): seq<string> {
    if donor == [] then [] else Adapt(donor[0], alias, isFmn, image) + AdaptAll(donor[1..], alias, isFmn, image)
  }

  /** The joined parameters of the new NCN. */
  function NewParams(macs: seq<Interface>, donor: string, alias: string, isFmn: bool, image: string): string {
    Join(IfParams(macs) + AdaptAll(Words(donor), alias, isFmn, image), ' ')
  }

  /** The parameters of the donor that are not about its interfaces. */
  function WithoutInterfaces(donor: seq<string>): seq<string> {
    if donor == [] then []
    else (if "ifname=" <= donor[0] then [] else [donor[0]]) + WithoutInterfaces(donor[1..])
  }

  /** A parameter as the new NCN has it: only the host name, the protection of its disks and, for a fabric manager, the
      root file system change. */
  function TakenOver(param: string, alias: string, isFmn: bool, image: string): string {
    if "hostname=" <= param then "hostname=" + alias
    else if "metal.no-wipe" <= param then "metal.no-wipe=0"
    else if isFmn && "metal.server" <= param then "metal.server=s3://boot-images/" + image + "/rootfs"
    else param
  }

  lemma AdaptIs(param: string, alias: string, isFmn: bool, image: string)
    ensures Adapt(param, alias, isFmn, image)
         == if "ifname=" <= param then [] else [TakenOver(param, alias, isFmn, image)]
  {
    if "ifname=" <= param {
      assert param[0] == 'i' && HOSTNAME[0] == 'h';
    }
  }

  /** What the new NCN takes over: every other parameter of the donor, in order. */
  lemma {:induction false} AdaptedAre(donor: seq<string>, alias: string, isFmn: bool, image: string)
    ensures var kept, params := WithoutInterfaces(donor), AdaptAll(donor, alias, isFmn, image);
            && |params| == |kept|
            && forall i :: 0 <= i < |kept| ==> params[i] == TakenOver(kept[i], alias, isFmn, image)
  {
    if donor != [] {
      AdaptedAre(donor[1..], alias, isFmn, image);
      AdaptIs(donor[0], alias, isFmn, image);
    }
  }

  method AdaptParams(donor: seq<string>, alias: string, isFmn: bool, image: string) returns (params: seq<string>)
    ensures params == AdaptAll(donor, alias, isFmn, image)
  {
    params := [];
    assert donor[0..] == donor;
    for i := 0 to |donor|
      invariant params + AdaptAll(donor[i..], alias, isFmn, image) == AdaptAll(donor, alias, isFmn, image)
    {
      var param := donor[i];
      assert donor[i..][0] == param && donor[i..][1..] == donor[i + 1..];
      ghost var before := params;
      if HOSTNAME <= param {
        params := params + [HOSTNAME + alias];
      } else if IFNAME <= param {
        params := params + [];
      } else if NO_WIPE <= param {
        params := params + ["metal.no-wipe=0"];
      } else if isFmn && METAL_SERVER <= param {
        params := params + [IMAGES + image + ROOTFS];
      } else {
        params := params + [param];
      }
      assert params == before + Adapt(param, alias, isFmn, image);
      Associative(before, Adapt(param, alias, isFmn, image), AdaptAll(donor[i + 1..], alias, isFmn, image));
    }
    assert params + [] == params;
  }

  method BuildParams(macs: seq<Interface>, donor: string, alias: string, isFmn: bool, image: string)
    returns (params: string)
    ensures params == NewParams(macs, donor, alias, isFmn, image)
  {
    var donorParams := Words(donor);
    var kernelParams: seq<string> := [];
    for i := 0 to |macs|
      invariant kernelParams == IfParams(macs)[..i]
    {
      kernelParams := kernelParams + [IFNAME + macs[i].Text()];
    }
    assert kernelParams == IfParams(macs);
    var adapted := AdaptParams(donorParams, alias, isFmn, image);
    params := Join(kernelParams + adapted, ' ');
  }

  /** The value of an ifname argument: what stands between the first two '='. */
  function IfValue(arg: string): string
    requires IFNAME <= arg
  {
    FindIs("ifname", '=', arg[7..]);
    assert arg == "ifname" + ['='] + arg[7..];
    Split(arg, '=')[1]
  }

  function Collect(args: seq<string>): seq<string> {
    if args == [] then []
    else (if IFNAME <= args[0] then [IfValue(args[0])] else []) + Collect(args[1..])
  }

  method BssParamsToIfnames(params: string) returns (result: seq<string>)
    ensures result == Collect(Split(params, ' '))
  {
    result := [];
    var args := Split(params, ' ');
    assert args[0..] == args;
    for i := 0 to |args|
      invariant result + Collect(args[i..]) == Collect(args)
    {
      assert args[i..][0] == args[i] && args[i..][1..] == args[i + 1..];
      ghost var before := result;
      if IFNAME <= args[i] {
        result := result + [IfValue(args[i])];
        Associative(before, [IfValue(args[i])], Collect(args[i + 1..]));
      }
    }
    assert result + [] == result;
  }

  // ---------------------------------------------------------------------------------------------
  // Reading back
  // ---------------------------------------------------------------------------------------------

  /** What reading finds in each of the parameters. */
  function CollectEach(params: seq<string>): seq<string> {
    if params == [] then [] else Collect(Split(params[0], ' ')) + CollectEach(params[1..])
  }

  lemma {:induction false} CollectInTwo(a: seq<string>, b: seq<string>)
    ensures Collect(a + b) == Collect(a) + Collect(b)
  {
    if a == [] {
      assert a + b == b;
    } else {
      assert (a + b)[0] == a[0] && (a + b)[1..] == a[1..] + b;
      CollectInTwo(a[1..], b);
    }
  }

  lemma {:induction false} EachInTwo(a: seq<string>, b: seq<string>)
    ensures CollectEach(a + b) == CollectEach(a) + CollectEach(b)
  {
    if a == [] {
      assert a + b == b;
    } else {
      assert (a + b)[0] == a[0] && (a + b)[1..] == a[1..] + b;
      EachInTwo(a[1..], b);
    }
  }

  /** Reading the joined parameters reads each of them, blanks inside a parameter included. */
  lemma {:induction false} CollectJoined(params: seq<string>)
    ensures Collect(Split(Join(params, ' '), ' ')) == CollectEach(params)
  {
    if params == [] {
      assert Split("", ' ') == [""];
    } else if |params| == 1 {
      assert CollectEach(params[1..]) == [];
    } else {
      CollectJoined(params[1..]);
      SplitBoth(params[0], ' ', Join(params[1..], ' '));
      CollectInTwo(Split(params[0], ' '), Split(Join(params[1..], ' '), ' '));
    }
  }

  lemma ReadsInterface(text: string)
    requires ' ' !in text && '=' !in text
    ensures Collect(Split(IFNAME + text, ' ')) == [text]
  {
    var param := IFNAME + text;
    LastPart(param, ' ');
    assert param == "ifname" + ['='] + text;
    SplitInTwo("ifname", '=', text);
    assert [param][1..] == [];
  }

  lemma {:induction false} ReadsInterfaces(macs: seq<Interface>)
    requires forall m :: m in macs ==> m.Plain()
    ensures CollectEach(IfParams(macs)) == IfTexts(macs)
  {
    if macs != [] {
      assert macs[0].Plain();
      ReadsInterface(macs[0].Text());
      assert IfParams(macs)[1..] == IfParams(macs[1..]);
      ReadsInterfaces(macs[1..]);
      assert IfTexts(macs) == [macs[0].Text()] + IfTexts(macs[1..]);
    }
  }

  /** An interface stands in the parameters as "ifname=", its name, a colon and its MAC address, and what reading finds
      in such a parameter is the name, the colon and the address. */
  lemma InterfaceParamIs(macs: seq<Interface>, i: nat)
    requires i < |macs| && ' ' !in macs[i].Text() && '=' !in macs[i].Text()
    ensures |IfParams(macs)| == |macs| && IfParams(macs)[i] == "ifname=" + macs[i].name + ":" + macs[i].mac
    ensures Collect(Split(IfParams(macs)[i], ' ')) == [macs[i].name + ":" + macs[i].mac]
  {
    var text := macs[i].name + ":" + macs[i].mac;
    assert macs[i].Text() == text;
    assert "ifname=" + macs[i].name + ":" + macs[i].mac == "ifname=" + text;
    ReadsInterface(text);
  }

  // ---------------------------------------------------------------------------------------------
  // The image of a fabric manager is not checked
  // ---------------------------------------------------------------------------------------------

  /** After a blank the image goes on with something that reads as an interface. */
  predicate HidesIfname(image: string) {
    Collect(Split(image, ' ')[1..]) != []
  }

  lemma {:induction false} SplitPrefixed(head: string, s: string)
    requires ' ' !in head
    ensures Split(head + s, ' ') == [head + Split(s, ' ')[0]] + Split(s, ' ')[1..]
  {
    var i := Find(s, ' ');
    if i == |s| {
      LastPart(s, ' ');
      LastPart(head + s, ' ');
    } else {
      var rest := s[i + 1..];
      assert s == s[..i] + [' '] + rest && head + s == (head + s[..i]) + [' '] + rest;
      FirstPart(s[..i], ' ', rest);
      FirstPart(head + s[..i], ' ', rest);
    }
  }

  lemma SamePrefix(a: string, b: string)
    requires b == a || b == a + ROOTFS
    ensures IFNAME <= a <==> IFNAME <= b
  {
    if b == a + ROOTFS && |a| < |IFNAME| {
      assert b[|a|] == '/' && IFNAME[|a|] != '/';
    }
  }

  lemma {:induction false} SplitSuffixed(s: string)
    ensures var x, y := Split(s, ' '), Split(s + ROOTFS, ' ');
            |x| == |y| && y == x[..|x| - 1] + [x[|x| - 1] + ROOTFS]
    decreases |s|
  {
    var i := Find(s, ' ');
    if i == |s| {
      assert ' ' !in s by { assert s[..i] == s; }
      LastPart(s, ' ');
      LastPart(s + ROOTFS, ' ');
    } else {
      var rest := s[i + 1..];
      assert s == s[..i] + [' '] + rest && s + ROOTFS == s[..i] + [' '] + (rest + ROOTFS);
      FirstPart(s[..i], ' ', rest);
      FirstPart(s[..i], ' ', rest + ROOTFS);
      SplitSuffixed(rest);
    }
  }

  lemma {:induction false} CollectSuffixed(x: seq<string>, y: seq<string>)
    requires |x| == |y| && forall i :: 0 <= i < |x| ==> y[i] == x[i] || y[i] == x[i] + ROOTFS
    ensures Collect(x) == [] <==> Collect(y) == []
  {
    if x != [] {
      SamePrefix(x[0], y[0]);
      CollectSuffixed(x[1..], y[1..]);
    }
  }

  lemma SuffixedRest(x: seq<string>, y: seq<string>)
    requires x != [] && |x| == |y| && y == x[..|x| - 1] + [x[|x| - 1] + ROOTFS]
    ensures Collect(x[1..]) == [] <==> Collect(y[1..]) == []
  {
    CollectSuffixed(x[1..], y[1..]);
  }

  lemma ReadsImage(image: string)
    ensures Collect(Split(IMAGES + image + ROOTFS, ' ')) == [] <==> !HidesIfname(image)
  {
    var x, y := Split(image, ' '), Split(image + ROOTFS, ' ');
    SplitSuffixed(image);
    SuffixedRest(x, y);
    SplitPrefixed(IMAGES, image + ROOTFS);
    assert IMAGES + image + ROOTFS == IMAGES + (image + ROOTFS);
    NotIfname(y[0], y[1..]);
  }

  lemma NotIfname(first: string, rest: seq<string>)
    ensures Collect([IMAGES + first] + rest) == Collect(rest)
  {
    assert (IMAGES + first)[0] == 'm';
    assert ([IMAGES + first] + rest)[1..] == rest;
  }

  /** Whether a blank in the image shows up in the parameters at all. */
  predicate TakesImage(donor: seq<string>, isFmn: bool) {
    isFmn && exists p :: p in donor && METAL_SERVER <= p
  }

  lemma ReadsNothing(param: string)
    requires ' ' !in param && !(IFNAME <= param)
    ensures CollectEach([param]) == []
  {
    LastPart(param, ' ');
    assert [param][1..] == [];
    assert Collect([param]) == Collect([param][1..]) == [];
    assert CollectEach([param]) == Collect(Split(param, ' ')) + CollectEach([param][1..]);
  }

  lemma ReadsAdapted(p: string, alias: string, isFmn: bool, image: string)
    requires ' ' !in alias && ' ' !in p
    ensures CollectEach(Adapt(p, alias, isFmn, image)) == [] <==> !(isFmn && METAL_SERVER <= p && HidesIfname(image))
  {
    if METAL_SERVER <= p {
      assert p[0] == 'm' && p[6] == 's';
      if isFmn {
        ReadsImage(image);
        assert [IMAGES + image + ROOTFS][1..] == [];
        assert CollectEach([IMAGES + image + ROOTFS]) == Collect(Split(IMAGES + image + ROOTFS, ' ')) + [];
      } else {
        ReadsNothing(p);
      }
    } else if HOSTNAME <= p {
      assert (HOSTNAME + alias)[0] == 'h';
      ReadsNothing(HOSTNAME + alias);
    } else if NO_WIPE <= p {
      assert p[0] == 'm';
      assert "metal.no-wipe=0"[0] == 'm' && IFNAME[0] == 'i';
      ReadsNothing("metal.no-wipe=0");
    } else if !(IFNAME <= p) {
      ReadsNothing(p);
    }
  }

  lemma TakesImageInTwo(p: string, rest: seq<string>, isFmn: bool)
    ensures TakesImage([p] + rest, isFmn) <==> (isFmn && METAL_SERVER <= p) || TakesImage(rest, isFmn)
  {
    assert p in [p] + rest;
    assert forall q :: q in [p] + rest <==> q == p || q in rest;
    if isFmn && TakesImage(rest, isFmn) {
      var q :| q in rest && METAL_SERVER <= q;
      assert q in [p] + rest;
    }
  }

  lemma {:induction false} ReadsDonor(donor: seq<string>, alias: string, isFmn: bool, image: string)
    requires ' ' !in alias && forall p :: p in donor ==> ' ' !in p
    ensures CollectEach(AdaptAll(donor, alias, isFmn, image)) == [] <==>
                !(TakesImage(donor, isFmn) && HidesIfname(image))
  {
    if donor != [] {
      assert donor == [donor[0]] + donor[1..];
      TakesImageInTwo(donor[0], donor[1..], isFmn);
      EachInTwo(Adapt(donor[0], alias, isFmn, image), AdaptAll(donor[1..], alias, isFmn, image));
      ReadsDonor(donor[1..], alias, isFmn, image);
      ReadsAdapted(donor[0], alias, isFmn, image);
    }
  }

  /**
    Reading the parameters of the new NCN gives exactly its interfaces and their MAC addresses, in order and
    whatever ifname parameters the donor had, if and only if the image that a fabric manager puts in does not
    smuggle in another one.
   */
  lemma IfnamesRoundTripIff(macs: seq<Interface>, donor: string, alias: string, isFmn: bool, image: string)
    requires ' ' !in alias && forall m :: m in macs ==> m.Plain()
    ensures Collect(Split(NewParams(macs, donor, alias, isFmn, image), ' ')) == IfTexts(macs)
       <==> !(TakesImage(Words(donor), isFmn) && HidesIfname(image))
  {
    var adapted := AdaptAll(Words(donor), alias, isFmn, image);
    CollectJoined(IfParams(macs) + adapted);
    EachInTwo(IfParams(macs), adapted);
    ReadsInterfaces(macs);
    forall p | p in Words(donor)
      ensures ' ' !in p
    {
      assert IsSpace(' ');
    }
    ReadsDonor(Words(donor), alias, isFmn, image);
    assert CollectEach(adapted) == [] <==> |IfTexts(macs) + CollectEach(adapted)| == |IfTexts(macs)|;
    assert IfTexts(macs) + [] == IfTexts(macs);
  }

  const EXTRA := "ifname=e:m"
  const DONOR := METAL_SERVER + "=s3://boot" + "-images/k/" + "rootfs"
  const MAC0 := "14:02:ec:" + "d9:79:88"
  const MAC1 := "94:40:c9:" + "5f:9a:84"
  const MACS := [Interface("mgmt0", MAC0), Interface("mgmt1", MAC1)]

  /** An image identifier that hides an interface: k is an image of its own. */
  const IMAGE := "k" + [' '] + EXTRA

  lemma ExtraIsHidden()
    ensures HidesIfname(IMAGE)
  {
    SplitInTwo("k", ' ', EXTRA);
    assert ["k", EXTRA][1..] == [EXTRA];
  }

  lemma DonorIsWord()
    ensures IsWord(DONOR)
  {
    assert IsWord(METAL_SERVER);
    assert IsWord("=s3://boot");
    assert IsWord("-images/k/");
    assert IsWord("rootfs");
    WordOfTwo(METAL_SERVER, "=s3://boot");
    WordOfTwo(METAL_SERVER + "=s3://boot", "-images/k/");
    WordOfTwo(METAL_SERVER + "=s3://boot" + "-images/k/", "rootfs");
  }

  lemma MetalIsTaken()
    ensures TakesImage(Words(DONOR), true)
  {
    DonorIsWord();
    WordIsWord(DONOR);
    assert DONOR in [DONOR] && METAL_SERVER <= DONOR;
  }

  predicate Bare(s: string) {
    ' ' !in s && '=' !in s
  }

  lemma BareIsPlain(name: string, a: string, b: string)
    requires Bare(name) && Bare(a) && Bare(b)
    ensures Interface(name, a + b).Plain()
  {
    assert Interface(name, a + b).Text() == name + ":" + (a + b);
  }

  lemma MacsArePlain()
    ensures forall m :: m in MACS ==> m.Plain()
  {
    BareIsPlain("mgmt0", "14:02:ec:", "d9:79:88");
    BareIsPlain("mgmt1", "94:40:c9:", "5f:9a:84");
  }

  lemma HiddenInterface(macs: seq<Interface>, donor: string, alias: string, image: string)
    requires ' ' !in alias && forall m :: m in macs ==> m.Plain()
    requires TakesImage(Words(donor), true) && HidesIfname(image)
    ensures Collect(Split(NewParams(macs, donor, alias, true, image), ' ')) != IfTexts(macs)
  {
    IfnamesRoundTripIff(macs, donor, alias, true, image);
  }

  /** An image that goes on after a blank: the new fabric manager seems to have an interface that nobody asked for. */
  lemma HiddenInterfaceExample()
    ensures Collect(Split(NewParams(MACS, DONOR, "fmn001", true, IMAGE), ' ')) != IfTexts(MACS)
  {
    ExtraIsHidden();
    MetalIsTaken();
    MacsArePlain();
    HiddenInterface(MACS, DONOR, "fmn001", IMAGE);
  }
}
