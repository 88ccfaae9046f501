/** Turning the text of a program file into the code page of a process. */
module Loader {
  import opened Words
  import opened Marshex
  import Elf

  const IMAGE_MAX := 0x4000
  const CODE_SIZE := 0x1000
  /** Where the code page and, above it, the stack page of a process lie. */
  const CODE_BASE := 0x4000_0000
  const STACK_BASE := CODE_BASE + CODE_SIZE

  /** There is no such program (the built-in one is used), its text is malformed, or this page is loaded. */
  datatype Outcome = Builtin | Malformed | Loaded(page: seq<u8>, entry: u32)

  function FlatPage(image: seq<u8>): (page: seq<u8>)
    requires |image| <= CODE_SIZE
    ensures |page| == CODE_SIZE && image <= page && forall j :: |image| <= j < CODE_SIZE ==> page[j] == 0
  {
    image + seq(CODE_SIZE - |image|, _ => 0)
  }

  function ElfPage(img: Elf.Image): (page: seq<u8>)
    requires |img| >= Elf.EHDR_SIZE && Elf.TableInside(img) && Elf.AllFit(img, Elf.PhNum(img), CODE_BASE, CODE_SIZE)
  {
    seq(CODE_SIZE, j => Elf.PageByte(img, Elf.PhNum(img), CODE_BASE, CODE_SIZE, j))
  }

  ghost function ImageOutcome(image: seq<u8>): Outcome
    requires |image| <= IMAGE_MAX
  {
    if Elf.IsElf32(image) then
      if Elf.Loadable(image, CODE_BASE, CODE_SIZE) then Loaded(ElfPage(image), Elf.Entry(image)) else Malformed
    else if |image| > CODE_SIZE then Malformed
    else Loaded(FlatPage(image), CODE_BASE)
  }

  /** A file that is no executable is the code itself, at the start of the page, if it fits. */
  lemma FlatProgram(image: seq<u8>)
    requires |image| <= 0x4000 && (|image| < 4 || image[..4] != [0x7F, 0x45, 0x4C, 0x46])
    ensures if |image| <= 0x1000 then ImageOutcome(image) == Loaded(image + seq(0x1000 - |image|, _ => 0), 0x4000_0000)
            else ImageOutcome(image) == Malformed
  {
    assert 'E' as int == 0x45 && 'L' as int == 0x4C && 'F' as int == 0x46;
    assert |image| >= 4 ==> image[..4] == [image[0], image[1], image[2], image[3]];
  }

  ghost function OutcomeOf(text: Option<CText>): Outcome {
    match text
    case None => Builtin
    case Some(t) =>
      if |t| < 2 then Malformed
      else
        match Decode(t, IMAGE_MAX)
        case None => Malformed
        case Some(image) => ImageOutcome(image)
  }

  /** Program headers that a text announces fit into the image it holds. */
  ghost predicate TablesFit(text: Option<CText>) {
    text.Some? ==>
      match Decode(text.value, IMAGE_MAX)
      case None => true
      case Some(image) =>
        |image| <= IMAGE_MAX && (Elf.HeaderOk(image) ==> Elf.PhNum(image) * Elf.PHDR_SIZE <= |image|)
  }

  /** Loads a decoded image into the code page. */
  method LoadImage(image: Elf.Image, code: array<u8>) returns (ok: bool, entry: u32)
    requires |image| <= IMAGE_MAX && code.Length == CODE_SIZE
    requires Elf.HeaderOk(image) ==> Elf.PhNum(image) * Elf.PHDR_SIZE <= |image|
    modifies code
    ensures ok <==> ImageOutcome(image) != Malformed
    ensures ok ==> ImageOutcome(image) == Loaded(code[..], entry)
  {
    if Elf.IsElf32(image) {
      hide Elf.Loadable, Elf.PageByte;
      ok, entry := Elf.LoadElf32(image, code, CODE_BASE);
      if ok {
        ElfPageIs(code[..], image);
      }
    } else if |image| > CODE_SIZE {
      ok, entry := false, 0;
    } else {
      Elf.ZeroBytes(code, 0, CODE_SIZE);
      Elf.CopyBytes(code, 0, image, 0, |image|);
      assert code[..] == FlatPage(image);
      ok, entry := true, CODE_BASE;
    }
  }

  lemma ElfPageIs(page: seq<u8>, img: Elf.Image)
    requires Elf.Loadable(img, CODE_BASE, CODE_SIZE) && |page| == CODE_SIZE
    requires Elf.PageIs(page, img, Elf.PhNum(img), CODE_BASE)
    ensures page == ElfPage(img)
  {
  }

  /**
   Loads the program with this text, by way of the image buffer. Status 1: loaded; 0: there is
   no such program; -1: malformed.
   */
  method LoadProgram(text: Option<CText>, buffer: array<u8>, code: array<u8>) returns (status: int, entry: u32)
    requires buffer.Length == IMAGE_MAX && code.Length == CODE_SIZE && buffer != code && TablesFit(text)
    modifies buffer, code
    ensures status == match OutcomeOf(text) case Builtin => 0 case Malformed => -1 case Loaded(_, _) => 1
    ensures status == 1 ==> OutcomeOf(text) == Loaded(code[..], entry)
  {
    status, entry := 0, 0;
    if text.None? {
      return;
    }
    if |text.value| < 2 {
      return -1, 0;
    }
    hide ImageOutcome, Decode;
    var ok, len := ParseUserImageHex(text.value, buffer);
    if !ok {
      return -1, 0;
    }
    var image := buffer[..len];
    ok, entry := LoadImage(image, code);
    status := if ok then 1 else -1;
  }
}
