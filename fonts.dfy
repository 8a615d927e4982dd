/** The font registry of the runtime (GameResetFonts, GameLoadFont and the
    font lookup of GameDrawText): two parallel lists, the registered font
    names and the loaded fonts, plus the name of the current font. */
module Fonts {

  datatype Option<T> = None | Some(value: T)

  /** A font as the loader returns it: the file it was read from, at the
      character size it was asked for. */
  datatype Font = Font(file: string, size: int)

  /** No name occurs twice. */
  predicate Distinct(names: seq<string>)
  {
    forall i, j :: 0 <= i < j < |names| ==> names[i] != names[j]
  }

  class FontRegistry {
    var names: seq<string>   // gameFontNames
    var data: seq<Font>      // gameFontData
    var current: string      // gameFont
    var useFonts: bool       // gameUseFonts

    /** The lists are parallel: as long as each other, the names distinct,
        and entry i of data the font loaded from name i. */
    ghost predicate Valid()
      reads this
    {
      |names| == |data| && Distinct(names) &&
      forall i :: 0 <= i < |data| ==> data[i].file == names[i]
    }

    /** An empty registry with no current font. */
    constructor ()
      ensures Valid()
      ensures names == [] && data == [] && current == "" && !useFonts
    {
      names, data, current, useFonts := [], [], "", false;
    }

    /** GameResetFonts: text drawing is off, there is no current font and both
        lists are emptied. */
    method Reset()
      modifies this
      ensures Valid()
      ensures names == [] && data == [] && current == "" && !useFonts
    {
      useFonts := false;
      current := "";
      data := [];
      names := [];
    }

    /** The search both GameLoadFont and GameDrawText make: the index of the
        registered font called name, or None when there is none. */
    method Find(name: string) returns (r: Option<nat>)
      ensures r.Some? ==> r.value < |names| && names[r.value] == name
      ensures r.Some? ==> forall j :: 0 <= j < r.value ==> names[j] != name
      ensures r.None? <==> name !in names
    {
      var i := 0;
      while i < |names|
        invariant 0 <= i <= |names|
        invariant forall j :: 0 <= j < i ==> names[j] != name
      {
        if names[i] == name {
          return Some(i);
        }
        i := i + 1;
      }
      return None;
    }

    /** GameLoadFont, with the outcome of reading the font file supplied as
        loaded. A registered name is only made current, whatever size is
        asked for; a new name is registered and made current if its file
        loads; a failed load changes nothing. */
    method Load(name: string, size: int, loaded: bool) returns (ok: bool)
      requires Valid()
      modifies this
      ensures Valid()
      ensures useFonts == old(useFonts)
      ensures name in old(names) ==>
        ok && names == old(names) && data == old(data) && current == name
      ensures name !in old(names) && loaded ==>
        ok && names == old(names) + [name] && data == old(data) + [Font(name, size)] &&
        current == name
      ensures name !in old(names) && !loaded ==>
        !ok && names == old(names) && data == old(data) && current == old(current)
    {
      var found := Find(name);
      if found.Some? {
        current := name;
        return true;
      }
      if loaded {
        data := data + [Font(name, size)];
        names := names + [name];
        current := name;
        return true;
      }
      return false;
    }

    /** The part of GameDrawText this model keeps: text drawing is switched
        on, and the text is drawn, with the font registered under name, iff
        there is one. */
    method DrawText(name: string) returns (drawn: bool, font: Option<Font>)
      requires Valid()
      modifies this`useFonts
      ensures useFonts
      ensures drawn <==> name in names
      ensures drawn == font.Some?
      ensures font.Some? ==> font.value in data && font.value.file == name
    {
      if !useFonts {
        useFonts := true;
      }
      var found := Find(name);
      if found.Some? {
        return true, Some(data[found.value]);
      }
      return false, None;
    }
  }
}
