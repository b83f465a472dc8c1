TestResult.DisplayName,TestResult.Outcome,TestResult.Duration,TestResult.ResourceCount,RandomSeed
AudioManager.LoadAndPlay (correctness),Passed,00:00:00.6976479,1491359,0
AudioManager.LoadFromPlayer (correctness),Passed,00:00:00.2380689,287978,0
AudioManager.LoadAndPlay (well-formedness),Passed,00:00:00.2210696,376479,0
Base.FirstFoundOfFive (correctness),Passed,00:00:00.2077235,479682,0
AudioManager.LoadAdmitted (correctness),Passed,00:00:00.1795601,229900,0
AudioManager.LoadFromPlayer (well-formedness),Passed,00:00:00.1746513,188430,0
AudioManager.LoadAndPlayNoFeedback (well-formedness),Passed,00:00:00.1655782,385026,0
AudioManager.PlaylistStep (correctness),Passed,00:00:00.1575162,325655,0
Base.Concat (well-formedness),Passed,00:00:00.1355310,12671,0
Base.Join (well-formedness),Passed,00:00:00.1339015,13368,0
AudioManager.PlayAllQueues (well-formedness),Passed,00:00:00.1278644,31845,0
AudioManager.PlayAll (well-formedness),Passed,00:00:00.1260207,26135,0
AudioManager.PlayTracksWithinLimit (correctness),Passed,00:00:00.1247493,300288,0
Base.Split (well-formedness),Passed,00:00:00.1238505,317696,0
AudioManager.LoadAdmitted (well-formedness),Passed,00:00:00.1121198,184958,0
AudioManager.PlayAllQueues (correctness),Passed,00:00:00.1093694,259104,0
AudioManager.MaxDurationTextAsWritten (well-formedness),Passed,00:00:00.1075046,78998,0
AudioManager.MaxDurationTextDropsHours (correctness),Passed,00:00:00.0977373,176994,0
AudioManager.DurationSplits (correctness),Passed,00:00:00.0854840,133696,0
AudioManager.MaxDurationText (well-formedness),Passed,00:00:00.0770918,121277,0
AudioManager.PlayPlaylist (correctness),Passed,00:00:00.0718198,152551,0
AudioManager.OneHourLimitReadsZero (correctness),Passed,00:00:00.0662569,101311,0
Base.SplitAfterPiece (correctness),Passed,00:00:00.0653628,180470,0
AudioManager.PlayPlaylist (well-formedness),Passed,00:00:00.0642062,80081,0
Base.FirstFoundOfFour (correctness),Passed,00:00:00.0632761,104901,0
Base.FirstIndex (well-formedness),Passed,00:00:00.0625628,112452,0
AudioManager.WithinLimitMembers (correctness),Passed,00:00:00.0588745,80246,0
Base.FirstFoundAppend (correctness),Passed,00:00:00.0581927,82193,0
AudioManager.PlaysPlaylist (well-formedness),Passed,00:00:00.0554988,103058,0
AudioManager.GetGuildAudioPlayer (well-formedness),Passed,00:00:00.0534605,55187,0
Base.SplitJoin (correctness),Passed,00:00:00.0530195,95193,0
Base.ConcatAppend (correctness),Passed,00:00:00.0512688,58723,0
Base.FirstMatch (well-formedness),Passed,00:00:00.0484023,97006,0
AudioManager.PlayWithinLimitSnoc (correctness),Passed,00:00:00.0453135,57163,0
AudioManager.PlaylistStep (well-formedness),Passed,00:00:00.0447892,92077,0
AudioManager.MaxDurationTextReadsBack (well-formedness),Passed,00:00:00.0438593,42373,0
Base.RemoveCharAppend (correctness),Passed,00:00:00.0407164,54272,0
Base.FirstFound (well-formedness),Passed,00:00:00.0390417,66911,0
Base.FirstFoundOfThree (correctness),Passed,00:00:00.0389651,54013,0
Base.ParseDecimalOfDecimal (correctness),Passed,00:00:00.0381692,77515,0
AudioManager.WithinLimitSnoc (correctness),Passed,00:00:00.0378255,33341,0
AudioManager.WithinLimit (well-formedness),Passed,00:00:00.0378035,28959,0
AudioManager.PlayAllBound (well-formedness),Passed,00:00:00.0374114,27355,0
AudioManager.PlayAllSnoc (correctness),Passed,00:00:00.0373464,36419,0
AudioManager.Pad2Reads (correctness),Passed,00:00:00.0349953,57451,0
AudioManager.GetGuildAudioPlayerIdempotent (correctness),Passed,00:00:00.0349051,34285,0
Base.ReplaceFirstAbsent (correctness),Passed,00:00:00.0341768,70841,0
AudioManager.MaxDurationTextReadsBack (correctness),Passed,00:00:00.0331788,61769,0
Base.SplitWithoutSep (correctness),Passed,00:00:00.0331611,40938,0
AudioManager.PlayAllForced (correctness),Passed,00:00:00.0330181,32915,0
Base.FirstFoundOfTwo (correctness),Passed,00:00:00.0317487,36563,0
Base.RemoveChar (well-formedness),Passed,00:00:00.0303102,42732,0
Base.Lower (well-formedness),Passed,00:00:00.0298903,49480,0
AudioManager.PlayAllForced (well-formedness),Passed,00:00:00.0296705,26643,0
Base.DropTrailingEmpty (well-formedness),Passed,00:00:00.0284288,46103,0
Base.RemoveCharIdempotent (correctness),Passed,00:00:00.0277683,19316,0
AudioManager.CheckVoiceChannelState (well-formedness),Passed,00:00:00.0258848,60489,0
AudioManager.PlayAllBound (correctness),Passed,00:00:00.0258683,38133,0
Base.Decimal (well-formedness),Passed,00:00:00.0252933,35368,0
AudioManager.Play (well-formedness),Passed,00:00:00.0252696,26328,0
AudioManager.Pad2 (well-formedness),Passed,00:00:00.0245360,38846,0
Base.ReplaceFirstAbsent (well-formedness),Passed,00:00:00.0244730,15488,0
Base.FirstFoundCons (correctness),Passed,00:00:00.0211700,24256,0
AudioManager.VoiceCheckByConfiguredChannel (well-formedness),Passed,00:00:00.0209963,34330,0
Base.ParseDecimal (well-formedness),Passed,00:00:00.0208790,15240,0
Base.ReplaceFirst (well-formedness),Passed,00:00:00.0205883,19493,0
Base.IntToString (well-formedness),Passed,00:00:00.0204474,23278,0
AudioManager.VoiceCheckByConfiguredChannel (correctness),Passed,00:00:00.0202792,42507,0
Base.SplitJoin (well-formedness),Passed,00:00:00.0174498,19145,0
AudioManager.UrisOf (well-formedness),Passed,00:00:00.0171221,37707,0
AudioManager.Room (well-formedness),Passed,00:00:00.0132306,5480,0
Base.LowerChar (well-formedness),Passed,00:00:00.0128782,11537,0
Base.DigitValue (well-formedness),Passed,00:00:00.0115885,7974,0
AudioManager.JavaRem (well-formedness),Passed,00:00:00.0101541,5726,0
AudioManager.Bound (well-formedness),Passed,00:00:00.0081411,4985,0
AudioManager.JavaDivNonNegative (correctness),Passed,00:00:00.0078414,7943,0
Base.DigitChar (well-formedness),Passed,00:00:00.0077738,8419,0
AudioManager.JavaDivNonNegative (well-formedness),Passed,00:00:00.0073129,6950,0
AudioManager.PickIndex (well-formedness),Passed,00:00:00.0072308,6622,0
AudioManager.JavaDiv (well-formedness),Passed,00:00:00.0069305,4973,0
