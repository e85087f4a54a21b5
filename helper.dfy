/**
 * The translation table of the `Helper` class (src/Helper.php): user-facing messages, in
 * French by default, keyed by upper-case error keys, with UNKNOWN_ERROR as the fallback.
 */
module Translations {

  const UnknownError: string := "UNKNOWN_ERROR"

  /** PHP's `strtoupper`, which changes the ASCII letters a to z only. */
  function UpperChar(c: char): char {
    if 'a' <= c <= 'z' then (c as int - 32) as char else c
  }

  /**
   * The upper-cased string: no lower-case ASCII letter is left, each one becomes the same
   * letter in upper case, and every other character is kept where it was.
   */
  function ToUpper(s: string): (r: string)
    ensures |r| == |s|
    ensures forall i | 0 <= i < |r| :: !('a' <= r[i] <= 'z')
    ensures forall i | 0 <= i < |s| :: !('a' <= s[i] <= 'z') ==> r[i] == s[i]
    ensures forall i | 0 <= i < |s| :: 'a' <= s[i] <= 'z' ==> 'A' <= r[i] <= 'Z' && r[i] as int - 'A' as int == s[i] as int - 'a' as int
  {
    seq(|s|, i requires 0 <= i < |s| => UpperChar(s[i]))
  }

  /** Upper-casing twice is upper-casing once. */
  lemma ToUpperIdempotent(s: string)
    ensures ToUpper(ToUpper(s)) == ToUpper(s)
  {
    assert forall i | 0 <= i < |s| :: UpperChar(UpperChar(s[i])) == UpperChar(s[i]);
  }

  /** The table the class starts with. */
  function DefaultTable(): (t: map<string, string>)
    ensures UnknownError in t && t[UnknownError] == "Erreur de type inconnu"
  {
    map[
      "UNKNOWN_ERROR" := "Erreur de type inconnu",
      "FAILED_COPYING_FILE" := "Échec de la copie",
      "FAILED_DELETING_FILE" := "Échec de la suppression",
      "FILE_CANNOT_FIND_SOURCE" := "Impossible de trouver le fichier source",
      "UNABLE_TO_FIND_SOURCE_FILE" := "Impossible de trouver ou de lire le fichier",
      "FAILED_RENAMING_FILE" := "Échec du renommage",
      "UNABLE_TO_READ_FILE" := "Impossible d'ouvrir le fichier",
      "UNABLE_TO_MODIFY_FILE_PERMISSIONS" := "Impossible de modifier les permissions du fichier.",
      "UNABLE_TO_MODIFY_MOVE_UPLOADED_FILE" := "Impossible de déplacer le fichier uploadé.",
      "FAILED_FINDING_SOURCE_FOLDER" := "Impossible de trouver le répertoire source",
      "FOLDER_ALREADY_EXISTS" := "Le répertoire existe déjà",
      "FAILED_CREATING_FOLDER" := "Impossible de créer le répertoire cible",
      "FAILED_READING_SOURCE_FOLDER" := "Impossible d'ouvrir le répertoire source",
      "FOLDER_LOOP" := "Boucle infinie détectée",
      "FOLDER_PATH_IS_NOT_IN_OPEN_BASEDIR" := "Le chemin n'est pas dans les chemins open_basedir",
      "FAILED_DELETING_FOLDER" := "Impossible de supprimer le répertoire.",
      "FOLDER_CANNOT_DELETE_ROOT" := "Vous ne pouvez pas supprimer un répertoire de base.",
      "FAILED_RENAMING_FOLDER" := "Échec du renommage",
      "FOLDER_PATH_IS_NOT_A_FOLDER" := "Le chemin n'est pas un répertoire.",
      "INVALID_ZIP_DATA" := "Données ZIP invalides",
      "ARCHIVE_UNABLE_TO_LOAD" := "Impossible de charger l'archive",
      "ARCHIVE_UNABLE_TO_READ" := "Impossible de lire l'archive (%s)",
      "ARCHIVE_UNABLE_TO_WRITE" := "Impossible d'écrire l'archive (%s)",
      "ARCHIVE_UNABLE_TO_WRITE_FILE" := "Impossible d'écrire le fichier (%s)",
      "ARCHIVE_UNABLE_TO_WRITE_ENTRY" := "Impossible d'écrire l'entrée (%s)",
      "ARCHIVE_UNABLE_TO_DECOMPRESS" := "Impossible de décompresser les données",
      "ARCHIVE_UNABLE_TO_CREATE_DESTINATION" := "Impossible de créer la destination",
      "ARCHIVE_UNABLE_TO_READ_ENTRY" := "Impossible de lire l'entrée",
      "ARCHIVE_UNABLE_TO_OPEN_ARCHIVE" := "Impossible d'ouvrir l'archive",
      "ARCHIVE_ZIP_INFO_FAILED" := "Échec de l'obtention de l'information ZIP"
    ]
  }

  /** The process-wide table of the `Helper` class. */
  class Helper {
    var table: map<string, string>

    /** The fallback entry is always there: the table starts with it and merges never remove a key. */
    ghost predicate Valid()
      reads this
    {
      UnknownError in table
    }

    constructor ()
      ensures Valid() && table == DefaultTable()
    {
      table := DefaultTable();
    }

    /**
     * `Helper::setTranslations`: merge `translations` into the table; its entries override
     * or extend, every other key keeps its message, and merging nothing changes nothing.
     */
    method SetTranslations(translations: map<string, string>)
      requires Valid()
      modifies this
      ensures Valid()
      ensures forall k | k in translations :: k in table && table[k] == translations[k]
      ensures forall k | k !in translations :: (k in table <==> k in old(table)) && (k in table ==> table[k] == old(table)[k])
      ensures translations == map[] ==> table == old(table)
    {
      table := table + translations;
    }

    /**
     * `Helper::getTranslation`: the message of the upper-cased key, or the current
     * UNKNOWN_ERROR message when that key is not registered; it is always a message of the table.
     */
    function GetTranslation(key: string): (r: string)
      reads this
      requires Valid()
      ensures r in table.Values
      ensures ToUpper(key) in table ==> r == table[ToUpper(key)]
      ensures ToUpper(key) !in table ==> r == table[UnknownError]
    {
      var k := ToUpper(key);
      if k in table then table[k] else table[UnknownError]
    }
  }

  /** Looking up a key and its upper-cased form give the same message. */
  lemma LookupIgnoresCase(h: Helper, key: string)
    requires h.Valid()
    ensures h.GetTranslation(key) == h.GetTranslation(ToUpper(key))
  {
    ToUpperIdempotent(key);
  }

  /** An upper-case key missing from the table reads as the current UNKNOWN_ERROR message. */
  lemma UnregisteredKeyFallsBack(h: Helper, key: string)
    requires h.Valid() && key !in h.table
    requires forall i | 0 <= i < |key| :: !('a' <= key[i] <= 'z')
    ensures h.GetTranslation(key) == h.table[UnknownError]
  {
    assert ToUpper(key) == key;
  }

  // With the default table, the keys `File` raises its exceptions with are not registered,
  // so each of them reads as the UNKNOWN_ERROR message.

  lemma CannotFindSourceFallsBack(h: Helper)
    requires h.Valid() && h.table == DefaultTable()
    ensures h.GetTranslation("CANNOT_FIND_SOURCE") == "Erreur de type inconnu"
  {
    UnregisteredKeyFallsBack(h, "CANNOT_FIND_SOURCE");
  }

  lemma AlreadyExistsFallsBack(h: Helper)
    requires h.Valid() && h.table == DefaultTable()
    ensures h.GetTranslation("ALREADY_EXISTS") == "Erreur de type inconnu"
  {
    UnregisteredKeyFallsBack(h, "ALREADY_EXISTS");
  }

  lemma FailedRenamingFallsBack(h: Helper)
    requires h.Valid() && h.table == DefaultTable()
    ensures h.GetTranslation("FAILED_RENAMING") == "Erreur de type inconnu"
  {
    UnregisteredKeyFallsBack(h, "FAILED_RENAMING");
  }

  lemma FailedDeletingFallsBack(h: Helper)
    requires h.Valid() && h.table == DefaultTable()
    ensures h.GetTranslation("FAILED_DELETING") == "Erreur de type inconnu"
  {
    UnregisteredKeyFallsBack(h, "FAILED_DELETING");
  }
}
